# Verified models of six programs

This project models the parts of a coursework repository, and of the kernel
files it patches, whose correctness is not plain from reading them, and proves
what they promise.

Each part has a functional layer, on which the laws are stated for all inputs
and all runs, and where the program works in place a second layer of classes
and array methods proved to compute exactly those functions.

**SELinux mount options** (`MountOptions`, `MountOptionsLaws`, `MountRoundTrip`,
`OptionStrings`, `MountText`, `Superblock`, `SuperblockLaws`, `CallOutcomes`, `MountCircle`).  The printer, the splitter and the
parser of option strings, and the superblock that the options label.  The option
strings of `security.h` are not part of this model: any five non-empty strings
free of comma, quote and bar will do, none a prefix of another.  `match_token`
with `%s` is the prefix followed by a non-empty rest.  The policy and the
permission checks are functions; translating a context to a SID and back is
inverse.  Two properties hold only conditionally.  The round trip holds exactly
for `Printable` lists.  Repeating a successful call fails in one case, when a
refused earlier call had left a flag set and no options are given, since the
option loop sets flags before it has accepted all options
(`EmptyRepeatRefused`).  The laws of a first successful call allow for such
flags: what is read back then has one more pair for each of them, and it cannot be
parsed again when a leftover context meets a default (`LeftoverContextClashes`).
`CallOutcomes` says for every call, first or later, what it returns and stores;
`OptionStrings` says the same of the splitter, the parser and the printer in terms of
the strings alone.

**Path building** (`PathBuilder`).  A parent chain ends in null or in an entry
that is its own parent; the page has at least two bytes.

**Descriptor sweep** (`DescriptorSweep`).  The loop of `flush_unauthorized_files`
over a descriptor table whose size is a whole number of words.  Whether a file
is denied is a function of the file, and each attempt to open the null device has
its own outcome.  At most one attempt is made in a sweep: when it fails the
descriptor's number stays free, and no later descriptor gets its own number back.

**Search tree and linked list** (`Items`, `SearchTree`, `RetrievalLaws`,
`TraversalLaws`, `Dictionary`, `SharedPointers`, `BinarySearchTree`,
`DoublyLinkedList`).  Two implementations of one interface.  Nodes carry a pair of a
key and an address; the address tells apart items with equal keys, as pointers
do.  Duplicates go to the right on insertion, but deletion by exchange with the
predecessor can move one to the left: the invariant is therefore the weak order.
The two structures always hold the same keys.  Whether they return the same items
depends on the deletes: some deletes among duplicates make them part
(`DuplicateDeleteDiverges`), others do not (`DuplicatesCanBeHarmless`), and
`SamePointersExactly` says which, from the state before each delete: the item
that the delete promotes to where another search ends must be the one found
there, the next item of the deleted key must be the list's second.

**Queue simulation** (`LinkedQueue`, `Simulation`, `SimulationLaws`, `VisitLaws`,
`ReportLaws`, `ShopDriver`).  Ticks
of a shop with one queue and one to eight servers.  `rand()` is an arbitrary
stream of non-negative numbers, and every law is for all streams.  The closing
report calls `numCust` the total of customers; the code does not count those
still at a server when the queue runs empty, and the model follows the code.  The
parameters decide whether that matters: the report counts everybody for every
stream exactly when services take no time or the shop closes before it opens
(`CountsAllExactly`), which the parameters in `main.c` do not meet.

**Ring log** (`RingLog`, `RingLongWrites`).  `lq_write`, `lq_read` and
`get_lq_size` over any capacity of at least two bytes.  A write index at the
array's end and one at its beginning both occur, and not every write keeps the
newest bytes; `WriteGuard` and `LongGuard` say exactly which do.  A read that asks
past the array's end puts its second copy at `lq_size - lq_end` instead of behind
the first, so a gap keeps what the destination held; `ReadGuard` says exactly
which reads return the oldest bytes whatever that was.  A destination must have
room for the copies and for the zero byte behind the bytes reported (`HasRoom`);
`bio_read` passes one of exactly the length it asks for, so the zero byte lands one
past it unless fewer bytes are stored than asked for (`CallerRoomExactly`).  A ring
that has overflowed keeps the latest of a further short write only from three
positions of its read index (`FullRingExactly`).

**Percent decoder** (`Text`, `PercentDecoder`).  Section 2.1 of RFC 3986 on ASCII
input.  `from_str_radix` takes a leading plus sign as its documentation says, so
`%+5` is decoded although it encodes nothing (`PlusSignDecodes`); the inversion theorem says so with
`NoSign`.  Tokens are trimmed, so white space at the end of one is lost and white
space before the digits is accepted (`% 41`); decoder and scanner agree exactly
when decoding fails or no token has white space at either end.

**Fixed positions** (`FixedPoints`).  How many elements sorting leaves in place.

`Options` and `Sequences` hold what the parts share.

## Model

| member | source | states |
|---|---|---|
| MountRoundTrip.RoundTripExactly | 2015-Spring/os-lsm-hook/patchset/linux-2.6.35.6/security/selinux/hooks.c:838-1029 | Main result. A list that is printed, split and parsed comes back as the same (flag, context) pairs, each as often as before, if and only if its contexts are non-empty and free of `"` and bar and no two options clash; commas inside contexts are allowed, and nothing is left for the file system |
| MountRoundTrip.PrintableRoundTrips | 2015-Spring/os-lsm-hook/patchset/linux-2.6.35.6/security/selinux/hooks.c:838-1029 | With plain contexts the round trip succeeds exactly when no flag is repeated and context and defcontext are not both given |
| MountRoundTrip.SplitOfPrinted | 2015-Spring/os-lsm-hook/patchset/linux-2.6.35.6/security/selinux/hooks.c:2402-2491 | Splitting a printed list leaves the empty remainder and hands on the unquoted options joined by bars |
| MountRoundTrip.PrintedIsJoined | 2015-Spring/os-lsm-hook/patchset/linux-2.6.35.6/security/selinux/hooks.c:986-1029 | The printed text is a comma in front of each option |
| MountRoundTrip.OptTextIsWhole | 2015-Spring/os-lsm-hook/patchset/linux-2.6.35.6/security/selinux/hooks.c:1020-1028 | A printed option never has a comma outside closed quotes, is recognised as SELinux's, and loses only its quotes |
| MountRoundTrip.BareIsRecognised | 2015-Spring/os-lsm-hook/patchset/linux-2.6.35.6/security/selinux/hooks.c:858-920 | An unquoted printed option is recognised as its own token with its own argument, and as no other |
| MountRoundTrip.ParsedIsPlain | 2015-Spring/os-lsm-hook/patchset/linux-2.6.35.6/security/selinux/hooks.c:838-956 | Whatever the parser accepts after the splitter has non-empty contexts without quotes and bars |
| MountRoundTrip.SurvivorsArePlain | 2015-Spring/os-lsm-hook/patchset/linux-2.6.35.6/security/selinux/hooks.c:838-1029 | A list that survives the round trip had plain contexts to begin with |
| MountOptionsLaws.SplitIsCut | 2015-Spring/os-lsm-hook/patchset/linux-2.6.35.6/security/selinux/hooks.c:2451-2488 | The pieces rejoined by commas are the input, no piece holds a comma outside quotes, and every piece but the last closes its quotes |
| MountOptionsLaws.CutIsUnique | 2015-Spring/os-lsm-hook/patchset/linux-2.6.35.6/security/selinux/hooks.c:2451-2488 | Only one sequence of pieces has those properties: it is the one the splitter finds |
| MountOptionsLaws.SplitterShrinks | 2015-Spring/os-lsm-hook/patchset/linux-2.6.35.6/security/selinux/hooks.c:2451-2488 | Neither output is longer than the input |
| MountOptionsLaws.ForeignStringUnchanged | 2015-Spring/os-lsm-hook/patchset/linux-2.6.35.6/security/selinux/hooks.c:2451-2488 | A string without an SELinux option is left unchanged and nothing is handed to the parser |
| MountOptionsLaws.RemainderIsSettled | 2015-Spring/os-lsm-hook/patchset/linux-2.6.35.6/security/selinux/hooks.c:2451-2488 | For every string: splitting again what was left for the file system changes nothing and takes nothing |
| MountOptionsLaws.ParsePiecesMeaning | 2015-Spring/os-lsm-hook/patchset/linux-2.6.35.6/security/selinux/hooks.c:848-922 | Reading options one by one succeeds exactly when each is empty or recognised and no two clash, and then collects what they spell |
| MountOptionsLaws.ParseMeaning | 2015-Spring/os-lsm-hook/patchset/linux-2.6.35.6/security/selinux/hooks.c:838-956 | For every string: the parser succeeds exactly when each piece is empty or recognised and no two clash, and returns the pairs they spell, each equally often |
| MountText.WriteOpts | 2015-Spring/os-lsm-hook/patchset/linux-2.6.35.6/security/selinux/hooks.c:986-1029 | The loop appends the printed form of the list to the output |
| MountText.TakeOption | 2015-Spring/os-lsm-hook/patchset/linux-2.6.35.6/security/selinux/hooks.c:2419-2428 | Appends a comma unless first, then the option; the rest of the buffer stays zero |
| MountText.TakeSelinuxOption | 2015-Spring/os-lsm-hook/patchset/linux-2.6.35.6/security/selinux/hooks.c:2430-2449 | Appends a bar unless first, then the option without its quotes; the rest of the buffer stays zero |
| MountText.ScanStep | 2015-Spring/os-lsm-hook/patchset/linux-2.6.35.6/security/selinux/hooks.c:2466-2483 | What the scan has cut so far, followed by the open piece and the pieces of what is left, is always the cutting of the whole string |
| MountText.Separate | 2015-Spring/os-lsm-hook/patchset/linux-2.6.35.6/security/selinux/hooks.c:2466-2483 | The scan fills one buffer with the other options and one with SELinux's, both staying inside their buffers |
| MountText.SbCopyData | 2015-Spring/os-lsm-hook/patchset/linux-2.6.35.6/security/selinux/hooks.c:2451-2491 | The in-place splitter: the caller's string becomes the remainder and the zeroed second buffer the SELinux options |
| MountText.Strsep | 2015-Spring/os-lsm-hook/patchset/linux-2.6.35.6/security/selinux/hooks.c:848 | Cuts a string at its first separator so that the first piece and the pieces of the rest are the pieces of the whole |
| MountText.Store | 2015-Spring/os-lsm-hook/patchset/linux-2.6.35.6/security/selinux/hooks.c:858-911 | An argument is refused exactly when its flag clashes with one already taken, else it is the only change |
| MountText.ParseOptsStr | 2015-Spring/os-lsm-hook/patchset/linux-2.6.35.6/security/selinux/hooks.c:838-956 | The parser loop returns an error exactly when the string has no meaning, else the listed pairs in the code's order |
| OptionStrings.EveryOptionIsDealt | 2015-Spring/os-lsm-hook/patchset/linux-2.6.35.6/security/selinux/hooks.c:2402-2491 | Main result. For any options joined by commas as every string is, each either one of the five strings with anything behind it or starting with none of them: the remainder is the foreign ones in order, and what is taken is the others in order without quotes |
| OptionStrings.OursExactly | 2015-Spring/os-lsm-hook/patchset/linux-2.6.35.6/security/selinux/hooks.c:2410-2417 | An option is SELinux's exactly when it is one of the five strings with anything behind it, and exactly when it starts with some of them |
| OptionStrings.ParsesExactly | 2015-Spring/os-lsm-hook/patchset/linux-2.6.35.6/security/selinux/hooks.c:838-956 | Main result. A string parses exactly when each piece between bars is empty, the label-support string or one of the four keys with something behind it, no key twice and not both context and default; the result holds exactly the pairs of the pieces |
| OptionStrings.TokenExactly | 2015-Spring/os-lsm-hook/patchset/linux-2.6.35.6/security/selinux/hooks.c:848-920 | A piece is recognised as a flag with an argument exactly when it is that flag's string with the non-empty argument behind it |
| OptionStrings.OtherTokensExactly | 2015-Spring/os-lsm-hook/patchset/linux-2.6.35.6/security/selinux/hooks.c:912-920 | The label-support string alone is label support, and what is neither it nor a key with something behind it is an error |
| OptionStrings.ParsedInOrder | 2015-Spring/os-lsm-hook/patchset/linux-2.6.35.6/security/selinux/hooks.c:930-950 | The parsed pairs come in the order fscontext, context, rootcontext, defcontext, one of each at most |
| OptionStrings.OptTextByName | 2015-Spring/os-lsm-hook/patchset/linux-2.6.35.6/security/selinux/hooks.c:986-1029 | A printed option is its string and the context behind it, in quotes exactly when it has a comma |
| OptionStrings.WholeIsParity | 2015-Spring/os-lsm-hook/patchset/linux-2.6.35.6/security/selinux/hooks.c:2466-2472 | A piece is whole exactly when every comma in it has a quotation open before it |
| OptionStrings.QuotedIsParity | 2015-Spring/os-lsm-hook/patchset/linux-2.6.35.6/security/selinux/hooks.c:2466-2467 | A quotation is open exactly after an odd number of quotes |
| OptionStrings.ReadInOrder | 2015-Spring/os-lsm-hook/patchset/linux-2.6.35.6/security/selinux/hooks.c:511-546 | What is read back comes in the order fscontext, context, defcontext, rootcontext, and ends in label support exactly when the superblock has it |
| OptionStrings.ReadExactly | 2015-Spring/os-lsm-hook/patchset/linux-2.6.35.6/security/selinux/hooks.c:511-546 | For every superblock whose options can be read: each flag set gives the context of its label, and nothing else is given |
| OptionStrings.ReadCodeExactly | 2015-Spring/os-lsm-hook/patchset/linux-2.6.35.6/security/selinux/hooks.c:471-555 | Reading succeeds exactly with code zero, and otherwise fails with the code of the first label in that order that has no context |
| SuperblockLaws.FrozenOnce | 2015-Spring/os-lsm-hook/patchset/linux-2.6.35.6/security/selinux/hooks.c:557-705 | Once initialised, no call changes flags, SIDs, behaviour or the root's SID, and the accepted calls are exactly those whose options match what is in force |
| SuperblockLaws.FrozenForever | 2015-Spring/os-lsm-hook/patchset/linux-2.6.35.6/security/selinux/hooks.c:581-779 | The same over every sequence of calls, under any policy |
| SuperblockLaws.TakenWhenInitialized | 2015-Spring/os-lsm-hook/patchset/linux-2.6.35.6/security/selinux/hooks.c:638-702 | The option loop on an initialised superblock changes nothing and accepts exactly the matching options |
| SuperblockLaws.SuccessMatches | 2015-Spring/os-lsm-hook/patchset/linux-2.6.35.6/security/selinux/hooks.c:581-779 | After a successful call every option given is in force with its SID |
| SuperblockLaws.RepeatSucceedsExactly | 2015-Spring/os-lsm-hook/patchset/linux-2.6.35.6/security/selinux/hooks.c:601-635 | Repeating a successful call with the same options succeeds except in one case: no options, flags left by an earlier failed call, and no binary mount data |
| CallOutcomes.FirstCallOutcome | 2015-Spring/os-lsm-hook/patchset/linux-2.6.35.6/security/selinux/hooks.c:581-779 | Main result. A first call whose options pass is refused by the first of seven checks that does not, with its code, and what is stored then is exactly what the checks before it guard; with none it returns zero and all is stored. The checks are told on the options and the kernel's answers |
| CallOutcomes.FirstCallSucceedsExactly | 2015-Spring/os-lsm-hook/patchset/linux-2.6.35.6/security/selinux/hooks.c:581-779 | A first call returns zero if and only if every option passes and all seven checks give zero |
| CallOutcomes.RefusedAtOption | 2015-Spring/os-lsm-hook/patchset/linux-2.6.35.6/security/selinux/hooks.c:631-702 | A call, first or later, with an option that does not pass is refused at the first such option with its code, and only the flags of those before it are stored |
| CallOutcomes.LaterCallOutcome | 2015-Spring/os-lsm-hook/patchset/linux-2.6.35.6/security/selinux/hooks.c:601-705 | A later call whose options pass changes nothing and returns zero, except with no options where some are in force and the mount data are not binary |
| CallOutcomes.WithoutPolicy | 2015-Spring/os-lsm-hook/patchset/linux-2.6.35.6/security/selinux/hooks.c:598-609 | Before a policy is loaded a call with options is refused, one without is accepted, and nothing is stored |
| CallOutcomes.SidGivenIs | 2015-Spring/os-lsm-hook/patchset/linux-2.6.35.6/security/selinux/hooks.c:631-686 | The label asked for with a flag is the translation of the context given with it, and zero when none is |
| SuperblockLaws.FailedCallLeavesFlag | 2015-Spring/os-lsm-hook/patchset/linux-2.6.35.6/security/selinux/hooks.c:638-671 | A call refused at its second option, whichever two they are, leaves exactly the flag of its first behind |
| SuperblockLaws.EmptyRepeatRefused | 2015-Spring/os-lsm-hook/patchset/linux-2.6.35.6/security/selinux/hooks.c:601-705 | The exception occurs: after such a call an empty list is accepted once and refused when repeated |
| SuperblockLaws.LabelsInForce | 2015-Spring/os-lsm-hook/patchset/linux-2.6.35.6/security/selinux/hooks.c:712-774 | When labelling succeeds each SID taken is the one the superblock or root now carries, and context and defcontext cannot both be |
| SuperblockLaws.ContextGoverns | 2015-Spring/os-lsm-hook/patchset/linux-2.6.35.6/security/selinux/hooks.c:712-757 | When a context is given files are labelled by the mount point, superblock and root take the same label unless given one, and relabelling is unsupported except on sysfs; flags left by a refused call make no difference |
| SuperblockLaws.PolicyGoverns | 2015-Spring/os-lsm-hook/patchset/linux-2.6.35.6/security/selinux/hooks.c:715-774 | When none is given behaviour and label come from the policy, and a default context is accepted only where labels are stored with files |
| SuperblockLaws.ReadBackIsAccepted | 2015-Spring/os-lsm-hook/patchset/linux-2.6.35.6/security/selinux/hooks.c:471-555 | Feeding the options read from a superblock back in returns zero and changes nothing |
| MountCircle.SetThenGet | 2015-Spring/os-lsm-hook/patchset/linux-2.6.35.6/security/selinux/hooks.c:471-779 | After a first successful call the options read back are the ones given and one for each flag a refused call had left; reading fails exactly when such a flag's label has no context |
| MountCircle.ShownCircle | 2015-Spring/os-lsm-hook/patchset/linux-2.6.35.6/security/selinux/hooks.c:471-1029 | For every superblock whose options can be shown: showing them leaves nothing for the file system, they parse exactly when context and default are not both in force, to the pairs shown, and setting those is accepted without effect |
| MountCircle.FullCircle | 2015-Spring/os-lsm-hook/patchset/linux-2.6.35.6/security/selinux/hooks.c:471-1029 | Set, read back, print, split, parse, set again: the given pairs and those left over come out, unless a leftover flag makes context and default clash, and the second setting has no effect |
| MountCircle.LeftoverContextClashes | 2015-Spring/os-lsm-hook/patchset/linux-2.6.35.6/security/selinux/hooks.c:471-1029 | The circle can fail to close: a refused call leaves the context flag, a default is accepted, and what is shown cannot be parsed |
| MountCircle.FirstMountCircle | 2015-Spring/os-lsm-hook/patchset/linux-2.6.35.6/security/selinux/hooks.c:471-1029 | With nothing left over the circle always closes on the very pairs given |
| Superblock.SuperBlock.SetMntOpts | 2015-Spring/os-lsm-hook/patchset/linux-2.6.35.6/security/selinux/hooks.c:581-779 | The method takes the fields to the state, and returns the code, that the laws are about |
| Superblock.SuperBlock.TakeAll | 2015-Spring/os-lsm-hook/patchset/linux-2.6.35.6/security/selinux/hooks.c:643-702 | The option loop: flags set as it goes, SIDs gathered, stop at the first refused option |
| Superblock.SuperBlock.LabelAll | 2015-Spring/os-lsm-hook/patchset/linux-2.6.35.6/security/selinux/hooks.c:712-774 | The labelling sequence, each step only after the one before it returned zero |
| Superblock.SuperBlock.FinishSetOpts | 2015-Spring/os-lsm-hook/patchset/linux-2.6.35.6/security/selinux/hooks.c:383-464 | Initialised unless the xattr test fails; label support by behaviour, sysfs excepted; the root labelled last |
| Superblock.SuperBlock.GetMntOpts | 2015-Spring/os-lsm-hook/patchset/linux-2.6.35.6/security/selinux/hooks.c:471-555 | Reads the options in the code's order, or returns the error code of the first label without a context |
| PathBuilder.WriteChain | 2015-Spring/os-lsm-hook/patchset/linux-2.6.35.6/security/selinux/hooks.c:1164-1178 | The shared right-to-left loop: free space and write position agree, the text is the longest fitting run of leaf-side names, writes stay in the page |
| PathBuilder.FittingIsLongest | 2015-Spring/os-lsm-hook/patchset/linux-2.6.35.6/security/selinux/hooks.c:1170-1178 | A run of leaf-side names fits exactly when it is no longer than the one written |
| PathBuilder.AllFits | 2015-Spring/os-lsm-hook/patchset/linux-2.6.35.6/security/selinux/hooks.c:1170-1178 | Everything is written exactly when the full path fits |
| PathBuilder.TailIsSuffix | 2015-Spring/os-lsm-hook/patchset/linux-2.6.35.6/security/selinux/hooks.c:1170-1178 | What is written is a suffix of the full path |
| PathBuilder.PathSplits | 2015-Spring/os-lsm-hook/patchset/linux-2.6.35.6/security/selinux/hooks.c:1164-1178 | Taken apart at its slashes the full path is nothing and then the names from root to leaf |
| PathBuilder.ProcPath | 2015-Spring/os-lsm-hook/patchset/linux-2.6.35.6/security/selinux/hooks.c:1152-1182 | The proc path: the full path when it fits, the longest fitting tail otherwise, a slash for nothing |
| PathBuilder.SysctlPath | 2015-Spring/os-lsm-hook/patchset/linux-2.6.35.6/security/selinux/hooks.c:1913-1951 | The sysctl path: /sys and the full path, or an error exactly when they do not fit |
| DescriptorSweep.Files.FlushUnauthorized | 2015-Spring/os-lsm-hook/patchset/linux-2.6.35.6/security/selinux/hooks.c:2247-2301 | Main result. The nested word-and-bit loop ends and leaves every descriptor as specified: kept, closed, or given the null device; for every file references change only with slots; and the null device is opened at most once, whatever the outcome of each attempt |
| DescriptorSweep.Files.SweepWord | 2015-Spring/os-lsm-hook/patchset/linux-2.6.35.6/security/selinux/hooks.c:2262-2297 | The bit loop over one word sweeps exactly the descriptors of that word |
| DescriptorSweep.Files.SweepOne | 2015-Spring/os-lsm-hook/patchset/linux-2.6.35.6/security/selinux/hooks.c:2263-2296 | One descriptor: the reference taken is given back on every branch |
| DescriptorSweep.Files.Replace | 2015-Spring/os-lsm-hook/patchset/linux-2.6.35.6/security/selinux/hooks.c:2271-2294 | Close, ask for a number, put back a wrong one, open the null device if need be, install it; after a failed attempt a lower number stays free |
| DescriptorSweep.Files.GetUnusedFd | 2015-Spring/os-lsm-hook/patchset/linux-2.6.35.6/security/selinux/hooks.c:2272 | Reserves the lowest free number, or nothing at the limit |
| DescriptorSweep.SweepStep | 2015-Spring/os-lsm-hook/patchset/linux-2.6.35.6/security/selinux/hooks.c:2262-2297 | Sweeping one more descriptor extends the swept part by one |
| DescriptorSweep.ReplaceableAgrees | 2015-Spring/os-lsm-hook/patchset/linux-2.6.35.6/security/selinux/hooks.c:2270-2276 | The number can be had again in the half-swept table exactly when it could in the original one |
| DescriptorSweep.NothingDeniedRemains | 2015-Spring/os-lsm-hook/patchset/linux-2.6.35.6/security/selinux/hooks.c:2245-2301 | Afterwards every open descriptor holds a file that is not denied, or the null device |
| DescriptorSweep.UntouchedExactly | 2015-Spring/os-lsm-hook/patchset/linux-2.6.35.6/security/selinux/hooks.c:2266-2268 | A descriptor keeps its file and bit exactly when it is not denied |
| DescriptorSweep.NullBelowLowestFree | 2015-Spring/os-lsm-hook/patchset/linux-2.6.35.6/security/selinux/hooks.c:2270-2292 | The null device sits only below the lowest free number and below the limit; a denied descriptor without it is closed |
| DescriptorSweep.NullGivenExactly | 2015-Spring/os-lsm-hook/patchset/linux-2.6.35.6/security/selinux/hooks.c:2264-2296 | Told on the table before: a denied descriptor is given the null device exactly when it lies below every free number and below the limit and the device opens at the first attempt; otherwise it is closed and its number freed; the others stay as they were |
| DescriptorSweep.ReferencesBalance | 2015-Spring/os-lsm-hook/patchset/linux-2.6.35.6/security/selinux/hooks.c:2264-2296 | For every file the change in references is the change in slots; the fresh null device ends with one reference a slot |
| SearchTree.DeleteKeepsOrder | 2015-Spring/ds-bst/project/bst.c:77-131 | Deletion keeps left keys <= node <= right keys although the order is broken during the call; it reports true exactly for a present key and leaves the tree alone for an absent one |
| SearchTree.DeleteLosesOne | 2015-Spring/ds-bst/project/bst.c:77-131 | The in-order keys lose exactly the first occurrence of the key, the items lose exactly one item with it |
| SearchTree.DeleteStripsMax | 2015-Spring/ds-bst/project/bst.c:119-126 | After the swap with the predecessor, deleting the swapped-in key from the left subtree removes just it: nothing above the old maximum remains |
| SearchTree.DeleteKeepsOthersInPlace | 2015-Spring/ds-bst/project/bst.c:77-131 | With distinct keys the other items keep their in-order places |
| SearchTree.DeleteCount | 2015-Spring/ds-bst/project/bst.c:77-131 | Every item but the one gone occurs as often as before |
| SearchTree.OrderedIsSorted | 2015-Spring/ds-bst/project/bst.c:171-191 | The in-order keys of an ordered tree are sorted |
| SearchTree.InsertKeepsOrder | 2015-Spring/ds-bst/project/bst.c:45-56 | Insertion keeps the order, and strictness on the left |
| SearchTree.InsertPlacesLast | 2015-Spring/ds-bst/project/bst.c:45-75 | A new item goes right behind all items with an equal key, in order, and moves nothing else |
| SearchTree.InsertAllIsStableSort | 2015-Spring/ds-bst/project/bst.c:45-75 | Traversal after insertions alone is the stable sort of the insertion sequence |
| SearchTree.RetrieveFinds | 2015-Spring/ds-bst/project/bst.c:151-169 | Finds a stored item with the key exactly when there is one |
| SearchTree.RetrieveAfterInsert | 2015-Spring/ds-bst/project/bst.c:45-169 | An insertion changes what is found only for a key that was absent |
| TraversalLaws.InsertsFailExactly | 2015-Spring/ds-bst/project/bst.c:171-191 | After inserts alone an assertion of the traversal fails exactly when, for some key other than -1, two occurrences have between them neither a third nor a key above it and below every larger one inserted before the first |
| TraversalLaws.WouldRepeatAfterInsert | 2015-Spring/ds-bst/project/bst.c:45-56 | The place right below a key is taken by another key exactly when that is the next above it |
| TraversalLaws.EqualKeysFail | 2015-Spring/ds-bst/project/bst.c:178-184 | They do fail: the same key inserted twice |
| RetrievalLaws.RetrieveAfterDelete | 2015-Spring/ds-bst/project/bst.c:77-169 | A delete changes what is found under another key only by promoting a predecessor to where that search ends, told from the tree before the delete |
| RetrievalLaws.RetrieveNext | 2015-Spring/ds-bst/project/bst.c:77-169 | What is found under the deleted key afterwards, told from the tree before |
| Dictionary.TreeRefinesList | 2015-Spring/ds-bst/project/bst.c:45-149 | Main result. After every common history of inserts and deletes tree and list hold the same keys equally often, the same count, and every delete answered the same |
| Dictionary.RetrieveAgreesOnPresence | 2015-Spring/ds-bst/project/bst.c:151-169 | After every common history a key is found in one exactly when in the other |
| SharedPointers.SamePointersExactly | 2015-Spring/ds-bst/project/bst.c:77-169 | Main result. Tree and list return the same items throughout a history exactly when every delete in it meets a condition on the state it finds; and they hold and free the same items exactly when each delete also frees the item found |
| SharedPointers.DeleteKeepsFoundExactly | 2015-Spring/ds-bst/project/bst.c:77-169 | One delete keeps all answers the same exactly when what it promotes is what is found already and the next item of the key is the list's second |
| SharedPointers.DeleteKeepsAnswersExactly | 2015-Spring/ds-bst/project/bst.c:77-169 | It keeps the stored items the same as well exactly when it frees the item found |
| SharedPointers.SamePointers | 2015-Spring/ds-bst/project/bst.c:45-169 | With keys distinct at every delete of a present key both always agree; duplicates may be inserted freely |
| SharedPointers.DuplicatesCanBeHarmless | 2015-Spring/ds-bst/project/bst.c:45-169 | Distinct keys are more than is needed: a history that deletes beside a duplicate and agrees |
| SharedPointers.DuplicateDeleteDiverges | 2015-Spring/ds-bst/project/bst.c:119-126 | Deleting among duplicates can break it: four inserts and one delete after which the two return different items and a duplicate stands on the left |
| Dictionary.TraverseAsserts | 2015-Spring/ds-bst/project/bst.c:171-191 | With distinct keys both assertions of the traversal hold after every history of inserts and deletes |
| BinarySearchTree.StoredIsInserted | 2015-Spring/ds-bst/project/bst.c:58-75 | Storing the new node through the link found changes the linked tree as insertion does |
| BinarySearchTree.OverwrittenMax | 2015-Spring/ds-bst/project/bst.c:119-125 | Overwriting the rightmost node of a linked tree replaces its maximum and nothing else |
| BinarySearchTree.BstTree.Insert | 2015-Spring/ds-bst/project/bst.c:58-75 | Insertion on linked nodes, with the counter |
| BinarySearchTree.BstTree.FindLink | 2015-Spring/ds-bst/project/bst.c:45-56 | The link at which the key belongs |
| BinarySearchTree.BstTree.SwapWithPredecessor | 2015-Spring/ds-bst/project/bst.c:119-125 | The predecessor loop and the exchange of data |
| BinarySearchTree.BstTree.DeleteBelow | 2015-Spring/ds-bst/project/bst.c:77-131 | Recursive deletion on linked nodes; nodes outside the subtree keep their links and data |
| BinarySearchTree.BstTree.DeleteSwapped | 2015-Spring/ds-bst/project/bst.c:117-127 | The exchange with the predecessor and the delete of what was swapped down |
| BinarySearchTree.BstTree.Delete | 2015-Spring/ds-bst/project/bst.c:133-149 | Deletion with the counter; true exactly when the key was present |
| BinarySearchTree.BstTree.Retrieve | 2015-Spring/ds-bst/project/bst.c:166-169 | Finds an item exactly when the key is stored |
| BinarySearchTree.BstTree.Traverse | 2015-Spring/ds-bst/project/bst.c:171-196 | Hands over the in-order items, unless an assertion fails |
| BinarySearchTree.BstTree.Count | 2015-Spring/ds-bst/project/bst.c:214-217 | The counter is the number of stored items |
| DoublyLinkedList.LinkedList.Insert | 2015-Spring/ds-bst/project/linkedlist.c:45-71 | Appends at the tail; prev, next, head and tail stay mutually consistent |
| DoublyLinkedList.LinkedList.DeleteFrom | 2015-Spring/ds-bst/project/linkedlist.c:73-103 | Removes the first match from a node on and leaves the items before and after in order |
| DoublyLinkedList.LinkedList.Bypass | 2015-Spring/ds-bst/project/linkedlist.c:81-91 | The relinking: only the two neighbours and the ends change |
| DoublyLinkedList.LinkedList.Delete | 2015-Spring/ds-bst/project/linkedlist.c:105-108 | Removes the oldest item with the key; the answer and the counter follow |
| DoublyLinkedList.LinkedList.Retrieve | 2015-Spring/ds-bst/project/linkedlist.c:123-126 | Finds the oldest item with the key |
| DoublyLinkedList.LinkedList.TraverseFrom | 2015-Spring/ds-bst/project/linkedlist.c:128-142 | Hands over the items in insertion order |
| DoublyLinkedList.LinkedList.Count | 2015-Spring/ds-bst/project/linkedlist.c:160-163 | The counter is the number of items |
| LinkedQueue.Queue.EnQueue | 2015-Spring/ds-queuesim/project/queue.c:30-53 | Appends at the rear of the linked queue |
| LinkedQueue.Queue.DeQueue | 2015-Spring/ds-queuesim/project/queue.c:55-78 | Takes the front item; an empty queue answers -1 and stays empty |
| LinkedQueue.Queue.QueueFront | 2015-Spring/ds-queuesim/project/queue.c:80-89 | The oldest item, or none |
| LinkedQueue.Queue.QueueRear | 2015-Spring/ds-queuesim/project/queue.c:91-99 | The newest item, or none |
| LinkedQueue.Queue.QueueCount | 2015-Spring/ds-queuesim/project/queue.c:101-103 | The counter is the number of items |
| LinkedQueue.Queue.IsEmpty | 2015-Spring/ds-queuesim/project/queue.c:109-115 | True exactly for the empty queue |
| SimulationLaws.AreaIdentity | 2015-Spring/ds-queuesim/project/driver.c:96-142 | Main result. After every tick of every run the summed queue lengths left by the server loop equal the recorded waits, plus the waits of customers in service, plus the waits so far of those queued |
| SimulationLaws.VisitKeepsWaiting | 2015-Spring/ds-queuesim/project/driver.c:108-129 | A server visit moves waiting time between those three places and makes none |
| SimulationLaws.TickWaiting | 2015-Spring/ds-queuesim/project/driver.c:96-142 | A tick adds exactly the queue length it leaves |
| SimulationLaws.ThroughputBound | 2015-Spring/ds-queuesim/project/driver.c:96-142 | After every tick recorded service time plus customers counted is at most servers times ticks, and the service time is within its limits per customer |
| SimulationLaws.ServedBound | 2015-Spring/ds-queuesim/project/driver.c:108-129 | The same with the ticks of services still under way |
| SimulationLaws.VisitSpends | 2015-Spring/ds-queuesim/project/server.c:41-100 | One visit uses at most one tick of the server, the extra tick of a completed customer included |
| SimulationLaws.Conservation | 2015-Spring/ds-queuesim/project/driver.c:22-36 | After every tick customers generated are those counted, in service and queued; the queue holds the consecutive highest numbers in strict order of arrival; services began in number order with no negative wait |
| SimulationLaws.RunSound | 2015-Spring/ds-queuesim/project/driver.c:96-142 | The inductive invariant behind the laws, over every run |
| SimulationLaws.PeakIsExact | 2015-Spring/ds-queuesim/project/driver.c:105-106 | The recorded maximum is an upper bound of the queue lengths right after arrivals and is reached |
| SimulationLaws.RunsGoOn | 2015-Spring/ds-queuesim/project/driver.c:96-142 | Runs of every length exist, so the laws are not about nothing |
| SimulationLaws.TickDecreases | 2015-Spring/ds-queuesim/project/driver.c:96-142 | For every random stream an unfinished tick lowers (minutes until after close, queue length, what server 0 has left) lexicographically |
| SimulationLaws.DoneMeansClosedAndEmpty | 2015-Spring/ds-queuesim/project/driver.c:131-141 | A tick reports completion only with an empty queue at or after closing time, and then at most as many customers as servers are uncounted: exactly those in service |
| ReportLaws.CountsAllExactly | 2015-Spring/ds-queuesim/project/driver.c:96-142 | Main result. The report counts every customer, whatever the random stream, if and only if services take no time or the shop closes before it opens; otherwise there are a stream and a run to completion that miss somebody |
| ReportLaws.ShippedReportCanMiss | 2015-Spring/ds-queuesim/project/main.c:22-35 | With the parameters of the application the report can miss customers |
| ReportLaws.EndsUncounted | 2015-Spring/ds-queuesim/project/driver.c:108-129 | Once somebody is in the shop and services take time, the run reaches its end with somebody uncounted |
| SimulationLaws.LastCustomerUncounted | 2015-Spring/ds-queuesim/project/driver.c:108-110 | A run whose only customer is not counted, for every stream |
| VisitLaws.TickInOneStep | 2015-Spring/ds-queuesim/project/driver.c:96-142 | Main result. One tick in closed form: which servers are reached, which waiting customer with which draw each idle one takes, which busy ones finish, and how many leave the queue |
| VisitLaws.DoneExactly | 2015-Spring/ds-queuesim/project/driver.c:131-141 | A tick reports completion exactly when it is closing time and the waiting customers, if any, all go to the first servers, these are idle, and none of their services takes time |
| VisitLaws.IdleServerBegins | 2015-Spring/ds-queuesim/project/server.c:12-59 | A draw that lies x above a multiple of the number of possible times makes the front customer begin a service of x minutes above the least; one of no time at all ends at once and is counted |
| VisitLaws.BusyServerCompletes | 2015-Spring/ds-queuesim/project/server.c:61-100 | A busy server keeps its customer until the service time has passed, then goes idle and customer, service and wait are counted |
| VisitLaws.DrawBrings | 2015-Spring/ds-queuesim/project/driver.c:22-36 | Up to closing time a draw that is a multiple of the rate brings a customer with the next number and the present time, to the rear |
| VisitLaws.DrawBringsNobody | 2015-Spring/ds-queuesim/project/driver.c:26 | Any other draw brings nobody and is used up |
| VisitLaws.NobodyAfterClosing | 2015-Spring/ds-queuesim/project/driver.c:23-24 | After closing time nothing is drawn and nobody comes |
| Simulation.SvcTime | 2015-Spring/ds-queuesim/project/server.c:12-20 | A service time lies within its limits, as far above the least as the draw lies above a multiple of the number of possible times |
| ShopDriver.ServerObject.Serve | 2015-Spring/ds-queuesim/project/server.c:41-59 | Refused while busy, with nothing changed and nothing drawn; otherwise the customer is taken over |
| ShopDriver.ServerObject.Complete | 2015-Spring/ds-queuesim/project/server.c:61-100 | Idle answers 0, unfinished -1, finished records the customer and goes idle |
| ShopDriver.Driver.GenCustomer | 2015-Spring/ds-queuesim/project/driver.c:22-39 | A customer arrives or not by the draw, numbered next and queued last |
| ShopDriver.Driver.Visit | 2015-Spring/ds-queuesim/project/driver.c:112-128 | The body of the server loop, on the linked queue and the server objects |
| ShopDriver.Driver.ServeAll | 2015-Spring/ds-queuesim/project/driver.c:108-129 | The server loop, ending early at an empty queue |
| ShopDriver.Driver.DoTick | 2015-Spring/ds-queuesim/project/driver.c:96-142 | One whole tick computes the step that the laws are about |
| ShopDriver.RunToEnd | 2015-Spring/ds-queuesim/project/main.c:35 | The application's loop ends for every random stream, closed, empty, and with only the customers in service uncounted |
| RingLongWrites.WriteKeepsLatestExactly | 2015-Fall/systemprogramming-fsmark/srcs/bio-benchmark.c:28-62 | Main result. A write of any length leaves the latest capacity-less-one bytes, as a usable ring, if and only if a guard on capacity, indices and length holds |
| RingLongWrites.RunKeepsLatest | 2015-Fall/systemprogramming-fsmark/srcs/bio-benchmark.c:28-62 | Over every run of guarded writes the ring holds the last capacity-less-one of all bytes stored and written |
| RingLongWrites.FullRingExactly | 2015-Fall/systemprogramming-fsmark/srcs/bio-benchmark.c:56-57 | When a write shorter than the ring keeps the latest after an overflow: from three positions of the read index only, and then by its length |
| RingLongWrites.SecondOverflowLoses | 2015-Fall/systemprogramming-fsmark/srcs/bio-benchmark.c:35-59 | After a short write that goes round and pushes the read index no further short write keeps the latest, unless it was pushed to the last byte |
| RingLongWrites.WritesLong | 2015-Fall/systemprogramming-fsmark/srcs/bio-benchmark.c:33-59 | The closed form of a write as long as the ring or longer, which may go round many times |
| RingLog.ShortWriteKeepsLatest | 2015-Fall/systemprogramming-fsmark/srcs/bio-benchmark.c:28-62 | The exact condition for a write shorter than the ring |
| RingLog.WriteAppendsExactly | 2015-Fall/systemprogramming-fsmark/srcs/bio-benchmark.c:28-62 | A write that fits beside what is stored is appended in full if and only if that guard holds |
| RingLog.WrapsOnce | 2015-Fall/systemprogramming-fsmark/srcs/bio-benchmark.c:33-59 | The closed form of a write that goes round once |
| RingLog.WrapFromLastByte | 2015-Fall/systemprogramming-fsmark/srcs/bio-benchmark.c:42-46 | The exact condition when the read index is on the last byte |
| RingLog.WrapFromFullMark | 2015-Fall/systemprogramming-fsmark/srcs/bio-benchmark.c:33-59 | A wrapping write from the state start 0, end at the array's end always fails to keep the latest |
| RingLog.FullMarkReached | 2015-Fall/systemprogramming-fsmark/srcs/bio-benchmark.c:28-91 | That state is reached by a guarded run, at every capacity |
| RingLog.SizeIsStored | 2015-Fall/systemprogramming-fsmark/srcs/bio-benchmark.c:23-26 | The modular size is the number of stored bytes, in every valid state |
| RingLog.ReadTakesFrontExactly | 2015-Fall/systemprogramming-fsmark/srcs/bio-benchmark.c:64-91 | A read returns the oldest bytes, whatever its destination held, if and only if it does not ask past the array's end while bytes go round it |
| RingLog.CallerRoomExactly | 2015-Fall/systemprogramming-fsmark/srcs/bio-benchmark.c:93-106 | A destination of exactly the length asked for has room for the copies and the zero byte if and only if the stored bytes do not go round and are fewer |
| RingLog.StraddleReached | 2015-Fall/systemprogramming-fsmark/srcs/bio-benchmark.c:28-91 | A read that the guard refuses is reached by a guarded run, at every capacity of at least four bytes |
| RingLog.ReadTakesFront | 2015-Fall/systemprogramming-fsmark/srcs/bio-benchmark.c:64-91 | A guarded read returns the oldest bytes and leaves the rest, as many as asked or all there are |
| RingLog.Fifo | 2015-Fall/systemprogramming-fsmark/srcs/bio-benchmark.c:28-91 | Main result. Over every guarded run of writes and reads: bytes stored before, then all written, are all read, then what is stored now |
| RingLog.FifoSize | 2015-Fall/systemprogramming-fsmark/srcs/bio-benchmark.c:23-91 | After a guarded run the size reported is what was stored and written less what was read |
| RingLog.LogRing.GetSize | 2015-Fall/systemprogramming-fsmark/srcs/bio-benchmark.c:23-26 | The size returned is the number of stored bytes |
| RingLog.LogRing.Write | 2015-Fall/systemprogramming-fsmark/srcs/bio-benchmark.c:28-62 | The do-while loop over the array computes the write that the laws are about |
| RingLog.LogRing.Pass | 2015-Fall/systemprogramming-fsmark/srcs/bio-benchmark.c:35-59 | One pass leaves the outcome of what remains unchanged |
| RingLog.LogRing.CopyStored | 2015-Fall/systemprogramming-fsmark/srcs/bio-benchmark.c:71-86 | The copies, the second one of a straddling read to the offset the code gives it |
| RingLog.CopiedAt | 2015-Fall/systemprogramming-fsmark/srcs/bio-benchmark.c:71-86 | What every place of the destination holds after the copies of any read, the gap of a straddling one included |
| RingLog.LogRing.ReadInto | 2015-Fall/systemprogramming-fsmark/srcs/bio-benchmark.c:64-91 | The array read: the copies, a zero byte behind what is reported, the read index moved |
| PercentDecoder.DecodeInvertsEncoding | 2015-Fall/sweng-algospot/uridecode.rs:17-56 | Main result. Decoding succeeds with given bytes exactly on their encodings: `%` and two hex digits of either case where escaped, any byte may be, and `%`, white space and non-ASCII must be |
| PercentDecoder.DecodeSpells | 2015-Fall/sweng-algospot/uridecode.rs:17-56 | On every ASCII input: decoding gives exactly the bytes that the text spells once its escaped tokens are trimmed, any character but `%` standing for itself and `%` with two digits, or plus and a digit, for its value |
| PercentDecoder.ParseByteExactly | 2015-Fall/sweng-algospot/uridecode.rs:45 | Two characters give a byte exactly when they are its two hex digits, told by their places in the digit strings of either case, or a plus sign and its one digit |
| PercentDecoder.HexValueExactly | 2015-Fall/sweng-algospot/uridecode.rs:45 | A character is worth v exactly when it is the v-th of the sixteen digits, in either case |
| PercentDecoder.TrimExactly | 2015-Fall/sweng-algospot/uridecode.rs:28 | Trimming takes only white space off the two ends and leaves none there |
| PercentDecoder.DecodeIsScan | 2015-Fall/sweng-algospot/uridecode.rs:17-56 | On input without white space the decoder by tokens is the one-pass scanner, errors included |
| PercentDecoder.DecodeIsScanExactly | 2015-Fall/sweng-algospot/uridecode.rs:17-56 | On every ASCII input decoder and scanner agree if and only if decoding fails or no escaped token has white space at either end |
| PercentDecoder.AcceptedDecode | 2015-Fall/sweng-algospot/uridecode.rs:27-28 | Where the scanner succeeds they agree if and only if no escaped token ends in white space |
| PercentDecoder.SpaceAfterPercent | 2015-Fall/sweng-algospot/uridecode.rs:27-28 | They do differ: `% 41` is decoded to one byte, and is no encoding |
| PercentDecoder.PlusSignDecodes | 2015-Fall/sweng-algospot/uridecode.rs:45 | `%+5` is decoded to one byte and is the encoding of nothing |
| PercentDecoder.DecodeIsScanOfTrimmed | 2015-Fall/sweng-algospot/uridecode.rs:17-56 | For every ASCII input the decoder is the scanner on the input with its escaped tokens trimmed |
| PercentDecoder.DecodeConcat | 2015-Fall/sweng-algospot/uridecode.rs:17-56 | Decoding distributes over concatenation behind a well-formed string |
| PercentDecoder.DecodeLength | 2015-Fall/sweng-algospot/uridecode.rs:17-56 | The output is the input's length less two for each `%` |
| PercentDecoder.URI.GetOriginalUri | 2015-Fall/sweng-algospot/uridecode.rs:17-56 | The nested loops compute the decoding, a panic being no result |
| FixedPoints.MatchesCountsAgreements | 2015-Fall/sweng-algospot2/fix.rs:21-35 | The loop's count is the number of positions where the sorted copy and the data agree |
| FixedPoints.CountOfSorted | 2015-Fall/sweng-algospot2/fix.rs:14-37 | The count is the length if and only if the data are sorted, and never the length less one, duplicates included |
| FixedPoints.CountOfPermutation | 2015-Fall/sweng-algospot2/fix.rs:14-37 | On a permutation of 1..N it is the number of k with the k-th element equal to k |
| FixedPoints.SortSorts | 2015-Fall/sweng-algospot2/fix.rs:15-17 | Sorting gives a sorted permutation and leaves sorted data alone |
| FixedPoints.Counter.DoCount | 2015-Fall/sweng-algospot2/fix.rs:14-37 | The loop returns that count |

## Left out

- RingLog.LogRing.ReadInto: reads whose second copy would leave the ring's memory or the destination; the caller must provide room (`HasRoom`).
- DescriptorSweep.Files.FlushUnauthorized: the terminal and the audit record of the function, and other threads sharing the table.
- Superblock.SuperBlock.FinishSetOpts: labelling inodes other than the root.
- Superblock.SuperBlock.GetMntOpts: the counting loop that sizes the arrays; the number is the length of the list.
- PercentDecoder.URI.GetOriginalUri: URIs with non-ASCII characters.
- FixedPoints.SortSorts: the library's sorting algorithm; sorting is a function.
- MountText.SbCopyData: the destination of the SELinux options is taken to be zeroed and long enough, as its callers provide it.
- MountText.ParseOptsStr: contexts longer than any buffer, and NUL inside strings, which C strings cannot hold.
- PathBuilder.ProcPath: names with a NUL, and the SID looked up for the path.
- `selinux_sb_clone_mnt_opts`, `superblock_doinit` and the other hooks of the file: case tables and calls into code that is not part of this model.
- Allocation failure everywhere (`-ENOMEM`, null from `malloc`), freeing and destroying: dropped nodes leave the footprint.
- Concurrency: locks, RCU, and callers of the ring that overlap (`lq_end_before` is read before the lock is taken).
- Machine integers: counters, times, indices and keys do not overflow.
- `new_linkedlist` does not set `_tail`, and `createServer` does not set `queueSize`; the model starts them as null and zero.
- Printed output, formatting of times and sizes, command lines and benchmarks.
- The smaller programs of the repository: the other queues, task-tag system calls, hanoi, factorial, the ELF loader, the HTTP server, procmon; they are duplicates, textbook-sized or input and output.
