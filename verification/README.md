# Keybase client core, modelled in Dafny

This project models the core of the Keybase client in Dafny and proves properties of the model. It covers two halves of the client.

**The React Native client:**
- the declarative router:
  - the meta navigator's path resolution (`getComponentAtTop`);
  - its reconciliation with the host navigator (`shouldComponentUpdate`);
  - the `parseRoute` resolvers of the login, welcome, register and tab screens;
- the tabbed router reducer;
- the device-pairing choices of the login2 actions and of the existing-device screen.

**The Go library:**
- the `basex` radix codec;
- the JSON statements of `kbsig.go`: key sections, proof metadata, key delegations and signature revocations;
- the proof-check cache;
- the Coinbase proof service;
- the `UIKind` names.

Modules, one per file:

| file | module | models |
|---|---|---|
| wrappers.dfy | Wrappers | `Option` and `Result` |
| json.dfy | JsonValue | the JSON values the statements and the cache are made of |
| router_model.dfy | RouterModel | segments, screen descriptors, resolver results, each screen's `parseRoute` |
| resolution.dfy | Resolution | `getComponentAtTop`: a specification of the resolution run, and the loop proved against it |
| router_rules.dfy | RouterRules | facts about resolution and about each modelled resolver |
| host_navigator.dfy | HostNavigator | the host navigator as the meta navigator drives it (push, popToRoute, reset, getCurrentRoutes) |
| meta_navigator.dfy | MetaNavigation | `isParentOfRoute`, `shouldComponentUpdate` and the in-place reverse and search of its pop branch |
| tabbed_router.dfy | TabbedRouter | the tabbed router reducer |
| basex_math.dfy | BaseXMath | powers, logarithms, big-endian numbers and digit expansions used by the codec |
| basex.dfy | BaseX | `NewEncoding`, the exact lengths, and the specification of encoding and decoding |
| basex_lengths.dfy | BaseXLengths | length arithmetic of the codec |
| basex_codec.dfy | BaseXCodec | `Encode`, `Decode` and their block routines, on arrays, proved against the specification |
| basex_roundtrip.dfy | BaseXRoundTrip | decoding an encoding gives the input back |
| kbsig.dfy | KbSig | the key section, proof metadata, key proof and revocation statements |
| proof_cache.dfy | ProofCache | the proof-check cache: its packing, freshness, memory and database stores |
| coinbase.dfy | Coinbase | the Coinbase proof service |
| login2.dfy | Login2 | code page modes, the QR/mode thunks, the device type answer and the existing-device role switch |
| uigroup.dfy | UIGroup | `UIKind.String` |

Three behaviours of the code that the model keeps as written:
- **Pop branch.** When the next path is a strict prefix of the current one, `shouldComponentUpdate` searches the host's history for the new top. It calls `popToRoute` with what it found, which is `undefined` when nothing matches. It does not fall back to a reset.
- **Equal paths.** A change of props that keeps the same path is not a no-op. Equal paths are not "parents" of each other, so that change resets the host to the whole resolved stack (`MetaNavigation.SamePathResets`).
- **basex `Decode` on error.** Its doc comment says it returns the number of bytes written before the error. The code returns 0, and so does the model (`BaseXCodec.Decode`).

## Model

| member | source | states |
|---|---|---|
| Resolution.Record | react-native/react/router/meta-navigator.ios.js:65-74 | The recorded descriptor takes the up-link and up-title of the segment it resolved. Its component is the resolver's own when the resolver names one, and otherwise the class selected for this step. Every other field is the resolver's. |
| Resolution.Next | react-native/react/router/meta-navigator.ios.js:76-91 | An explicit `parseNextRoute` wins when that class has a `parseRoute`. Otherwise the next segment's path is looked up in the resolver's `subRoutes` first and then in `globalRoutes`. The class found continues resolution only when it has a `parseRoute`. Resolution stops when both lookups miss or the class found has none. |
| Resolution.RunIsResolution | react-native/react/router/meta-navigator.ios.js:53-101 | The run computed by the specification obeys the step rules. Step i calls `parseRoute` on segments i and i+1, records through `Record`, and is entered the way `Next` says. |
| Resolution.ResolutionIsUnique | react-native/react/router/meta-navigator.ios.js:53-101 | Any sequence of steps obeying those rules is the run itself: the rules determine the resolution. |
| Resolution.InitialCursors | react-native/react/router/meta-navigator.ios.js:54-61 | The loop starts with the first two segments, empty maps when missing, and the path after them. |
| Resolution.AdvanceCursors | react-native/react/router/meta-navigator.ios.js:95-97 | One advance moves every cursor one segment further down the path. |
| Resolution.GetComponentAtTop | react-native/react/router/meta-navigator.ios.js:53-101 | The loop returns the route stack of the specified run and its last descriptor as the component at top. |
| RouterRules.UpLinksFollowSegments | react-native/react/router/meta-navigator.ios.js:65-69 | Descriptor i of the stack carries the up-link and up-title of segment i of the path. |
| RouterRules.FirstStep | react-native/react/router/meta-navigator.ios.js:54-74 | For a root with a `parseRoute`, the stack is never empty. Its first entry is the root's `parseRoute` on the first two segments, with the root backfilled as the component. |
| RouterRules.BackfillIsOwnClass | react-native/react/router/meta-navigator.ios.js:71-91 | A backfilled component is always the class whose `parseRoute` produced the descriptor. After an explicit continuation nothing is backfilled. |
| RouterRules.TableDrivenLength | react-native/react/router/meta-navigator.ios.js:63-98 | When every step continues through a table and no table has the key "undefined", the stack has at least one entry and is at most as long as the path. |
| RouterRules.LookupWithinPath | react-native/react/router/meta-navigator.ios.js:79-91 | A table lookup that continues was made with a segment that exists. |
| RouterRules.ExplicitChainUsesAllFuel | react-native/react/router/meta-navigator.ios.js:63-77 | A chain of explicit continuations into classes with a `parseRoute` does not stop on its own. It runs until the step bound. |
| RouterRules.RootWithoutParseRoute | react-native/react/router/meta-navigator.ios.js:57-63 | A root class without a `parseRoute` gives an empty route stack. |
| RouterRules.ClassWithoutParseRouteEndsRun | react-native/react/router/meta-navigator.ios.js:85-91 | A table hit on a class without a `parseRoute` ends resolution: with the global table {x: C}, the path [root, x] from the register screen gives a one-entry stack. |
| RouterRules.LoginContainerStep | react-native/react/login/index.js:23-55 | The login container names itself, with title "Keybase" and the login state slice. It continues explicitly to the login form, whatever the path, when the login form has a `parseRoute`; otherwise only the global table continues. |
| RouterRules.LoginContainerContinuesToForm | react-native/react/login/index.js:49-54 | A run rooted at the login container has the login form as its second step, with nothing backfilled. |
| RouterRules.WelcomeStep | react-native/react/login2/welcome/index.js:22-32 | Welcome hides the navigation bar and names no component. It maps 'login' and 'signup' through its own table ahead of the global one, continuing into those screens when they have a `parseRoute`. |
| RouterRules.RegisterStep | react-native/react/login2/register/index.js:19-21 | Register returns the empty descriptor, so only the backfill names its component and only the global table continues. |
| RouterRules.TabLeafStep | react-native/react/tabs/folders.js:17-25 | Folders, People (tabs/people.js 17-25) and Chat (tabs/chat.js 15-23) each name themselves with their own title. Only the global table continues past them. |
| MetaNavigation.IsParentOfRoute | react-native/react/router/meta-navigator.ios.js:21-26 | A route is a parent of another exactly when it is a strict prefix of it. |
| MetaNavigation.ParentIsIrreflexive | react-native/react/router/meta-navigator.ios.js:21-26 | No route is its own parent. |
| MetaNavigation.ParentIsAsymmetric | react-native/react/router/meta-navigator.ios.js:21-26 | Two routes are never parents of each other. |
| MetaNavigation.ParentIsTransitive | react-native/react/router/meta-navigator.ios.js:21-26 | A parent of a parent is a parent. |
| MetaNavigation.FirstMatch | react-native/react/router/meta-navigator.ios.js:42-44 | Gives the least index whose descriptor matches the new top (same component and title), and none exactly when no entry matches. |
| MetaNavigation.PopTargetIsMostRecentMatch | react-native/react/router/meta-navigator.ios.js:40-46 | The pop target is the most recent history entry matching the new top, and undefined exactly when none matches. |
| MetaNavigation.Decide | react-native/react/router/meta-navigator.ios.js:28-51 | No command exactly when props and state are the same objects. Push exactly when the old path is a strict prefix of the new one, with the new top. Pop exactly when the new path is a strict prefix of the old one, to the most recent matching entry. Otherwise reset to the whole new stack. |
| MetaNavigation.SamePathResets | react-native/react/router/meta-navigator.ios.js:47-49 | A change that keeps the path resets the host to the freshly resolved stack. |
| MetaNavigation.ReverseInPlace | react-native/react/router/meta-navigator.ios.js:42 | The array afterwards holds its old contents in reverse order. |
| MetaNavigation.Find | react-native/react/router/meta-navigator.ios.js:42-44 | The search loop returns `FirstMatch` of the array's contents. |
| MetaNavigation.MetaNavigator.ShouldComponentUpdate | react-native/react/router/meta-navigator.ios.js:28-51 | Returns whether anything changed and issues to the host exactly the command `Decide` names. The host history gains the top on push, is reversed in place by the pop search, and is replaced on reset. |
| TabbedRouter.InitialState | react-native/react/reducers/tabbed-router.js:22-41 | All six declared tabs hold the same empty router state, or the debug override. The "more" tab is active unless overridden. |
| TabbedRouter.UpdateTab | react-native/react/reducers/tabbed-router.js:54-60 | Only the given tab's entry changes, to the inner reducer's output on that tab's state, or on nothing when the tab has none. |
| TabbedRouter.OnlyForwardedTabChanges | react-native/react/reducers/tabbed-router.js:43-62 | Every tab other than the one an action is forwarded to keeps its state. switchTab, loginDone and logoutDone change no tab's state. |
| TabbedRouter.ActiveTabAfter | react-native/react/reducers/tabbed-router.js:44-60 | The active tab after each action: <br>• switchTab: the payload, unchecked; <br>• login: folders, unless the debug flag skips it and the state is unchanged; <br>• logout: startup; <br>• needsLogin and needsRegistering: "more"; <br>• anything else: unchanged. |
| TabbedRouter.MissingStateIsInitial | react-native/react/reducers/tabbed-router.js:43 | With no state yet, the reducer acts on the initial state. |
| TabbedRouter.InitialStateIsWellFormed | react-native/react/reducers/tabbed-router.js:24-41 | The initial state holds exactly the six tabs with a declared one active, unless the debug override names another tab. |
| TabbedRouter.ReducePreservesWellFormed | react-native/react/reducers/tabbed-router.js:43-62 | Every action keeps that shape except a switchTab to an undeclared tab. |
| TabbedRouter.UndeclaredSwitchThenForwardAddsTab | react-native/react/reducers/tabbed-router.js:45-60 | After a switch to an undeclared tab, a forwarded action creates an entry for it. |
| BaseX.LastIndex | go/encoding/basex/encoding.go:74-83 | Gives an index holding the byte, and none exactly when the byte is not in the alphabet. |
| BaseX.LastIndexIsLast | go/encoding/basex/encoding.go:81-83 | That index is the last occurrence: a later alphabet entry overwrites an earlier one. |
| BaseX.NewEncoding | go/encoding/basex/encoding.go:39-85 | The encoding keeps the alphabet, base and block length, and its decode map is the table the skip and alphabet loops build. |
| BaseX.DecodeMapEntry | go/encoding/basex/encoding.go:69-83 | A byte of the alphabet decodes to its last index. Otherwise a skip byte maps to the skip mark and every other byte to the invalid mark. |
| BaseX.IsValidByte | go/encoding/basex/encoding.go:118-120 | A byte is valid exactly when it is in the alphabet or is a skip byte. |
| BaseX.EncodeBlockSpec | go/encoding/basex/encoding.go:147-173 | A block encodes to exactly `EncodedLen` of its length characters. |
| BaseX.ScanBlock | go/encoding/basex/encoding.go:214-232 | Consumes at least one input byte, and at most one digit per byte and a block's worth of digits. A short block ends the input. An invalid byte is a corrupt-input error at its offset. |
| BaseX.BlockBytes | go/encoding/basex/encoding.go:238-252 | A block of digits decodes to exactly `DecodedLen` of its length bytes. |
| BaseX.PadTo | go/encoding/basex/encoding.go:245-251 | The output has the padded length: leading zeros then the bytes, or the bytes cut to the length. |
| BaseX.DecodeBlockSpec | go/encoding/basex/encoding.go:209-253 | Decoding a block stays inside the input and consumes something whenever input is left. |
| BaseXLengths.EncodedLenOfBlock | go/encoding/basex/encoding.go:257-271 | For a block at most a full block long, the encoded length is the number of digits the block's value can need. |
| BaseXLengths.DigitsForBounds | go/encoding/basex/encoding.go:42-46 | That digit count is the least e with base^e at least 256^r. |
| BaseXLengths.PartialBlock | go/encoding/basex/encoding.go:257-271 | A partial block's encoded length is at least one and below a full encoded block. |
| BaseXLengths.DecodedLenOfEncoded | go/encoding/basex/encoding.go:257-289 | Decoding the length of an encoded block gives the block length back. |
| BaseXLengths.EncodedLengthIsValid | go/encoding/basex/encoding.go:293-305 | Every encoded block length is a valid encoding length. |
| BaseXLengths.ExtraBitsOfBlock | go/encoding/basex/encoding.go:124-141 | The spare bits of an encoded block are fewer than eight, so the unsigned wrap of the source never happens for real lengths. |
| BaseXLengths.BlockFits | go/encoding/basex/encoding.go:147-173 | Every block value fits in the digits written for it. |
| BaseXLengths.EncodedLenFormula | go/encoding/basex/encoding.go:257-271 | EncodedLen is whole blocks times the full encoded block plus the encoding of the remainder. |
| BaseXLengths.DecodedLenFormula | go/encoding/basex/encoding.go:275-289 | DecodedLen is whole blocks times the full block plus the decoding of the remainder. |
| BaseXLengths.DecodedLenPartial | go/encoding/basex/encoding.go:275-289 | A partial encoded block decodes to the whole bytes its digits can carry, fewer than a full block. |
| BaseXLengths.DecodedLenMonotone | go/encoding/basex/encoding.go:275-289 | Longer input never decodes to fewer bytes. |
| BaseXLengths.ValidLengthIsEncodedLength | go/encoding/basex/encoding.go:293-305 | Within a block, a length is valid exactly when it is the encoded length of some byte count. |
| BaseXLengths.MinimalLength | go/encoding/basex/encoding.go:293-305 | A valid partial length is the encoded length of the byte count it decodes to. |
| BaseXCodec.EncodeBlock | go/encoding/basex/encoding.go:147-173 | Writes the block's encoding at the offset and leaves the rest of the buffer unchanged. |
| BaseXCodec.WriteDigits | go/encoding/basex/encoding.go:160-172 | Writes the number's k base-digits, most significant first, spelled in the alphabet. |
| BaseXCodec.Encode | go/encoding/basex/encoding.go:97-109 | The first `EncodedLen(len(src))` bytes of the buffer become the specified encoding, and the rest stay unchanged. |
| BaseXCodec.EncodeIteration | go/encoding/basex/encoding.go:98-107 | One loop turn encodes the next block and advances both limits the way the source clamps them. |
| BaseXCodec.EncodeFromLength | go/encoding/basex/encoding.go:88-109 | The encoding is exactly `EncodedLen` of the input length long. |
| BaseXCodec.DecodeBlock | go/encoding/basex/encoding.go:209-253 | Fails exactly when the block specification fails, with the same error. Otherwise writes the decoded bytes and reports how much was consumed. |
| BaseXCodec.ScanDigits | go/encoding/basex/encoding.go:214-232 | The scan loop accumulates the block's digits as `ScanBlock` specifies, with the same error. |
| BaseXCodec.CopyPadded | go/encoding/basex/encoding.go:245-251 | Writes the bytes right-aligned into the padded width, with zeros in front. |
| BaseXCodec.Decode | go/encoding/basex/encoding.go:175-196 | Returns the specified decoding and its error. The count written is the output's length on success and 0 on error. |
| BaseXCodec.DecodeStep | go/encoding/basex/encoding.go:177-184 | Decoding stops at a block's error and otherwise continues after the block. |
| BaseXCodec.DecodeFromLength | go/encoding/basex/encoding.go:188-196 | Decoding never writes more than `DecodedLen` of the input length. |
| BaseXRoundTrip.DistinctDecodes | go/encoding/basex/encoding.go:74-83 | With a repetition-free alphabet, every alphabet byte decodes to its own index. |
| BaseXRoundTrip.EncodedDigits | go/encoding/basex/encoding.go:147-173 | A block's encoding is the alphabet spelling of its digits, as many as `EncodedLen` says. |
| BaseXRoundTrip.BlockBytesOfEncoded | go/encoding/basex/encoding.go:238-252 | Turning the digits of a block back into bytes gives the block. |
| BaseXRoundTrip.DecodeEncodedBlock | go/encoding/basex/encoding.go:209-253 | Decoding an encoded block gives the block back and consumes exactly its encoding. |
| BaseXRoundTrip.RoundTrip | go/encoding/basex/encoding.go:97-196 | For a repetition-free alphabet, decoding the encoding of any input gives that input back without error. |
| UIGroup.String | go/libkb/uigroup.go:20-38 | Each declared kind has its own name, ending in "UI". |
| UIGroup.KindsNumbered | go/libkb/uigroup.go:8-18 | The kinds are numbered 0 to 6 in declaration order, and those are exactly the values `String` accepts. |
| UIGroup.StringInjective | go/libkb/uigroup.go:20-36 | Distinct kinds have distinct names. |
| Login2.ModeNeedsOneOfEach | react-native/react/actions/login2.js:30-53 | A mode exists exactly when one device is existing and the other new, and never with a role unset. |
| Login2.ModesComplement | react-native/react/actions/login2.js:30-53 | The two sides of a pairing get complementary modes: one shows what the other reads. |
| Login2.BrokenModeOnlyPhones | react-native/react/actions/login2.js:30-53 | The broken-camera flag changes the mode exactly for the phone-to-phone pairings. |
| Login2.BrokenPhonesUseText | react-native/react/actions/login2.js:47-50 | Two phones use text with the flag and QR codes without it. |
| Login2.Dispatcher.GenerateQRCode | react-native/react/actions/login2.js:66-77 | Dispatches setQRCode from the text code exactly when the mode shows a code, the QR code is missing or empty (falsy) and the text code is non-empty. |
| Login2.Dispatcher.SetCodePageMode | react-native/react/actions/login2.js:79-94 | Runs the QR check first, then dispatches the mode change unless the store is already in that mode. |
| Login2.SetCodePageModeActions | react-native/react/actions/login2.js:79-94 | A mode change is dispatched exactly when the mode differs, and it is the last action. A QR code is requested only under the store's own mode. |
| Login2.ChooseDeviceType | react-native/react/actions/login2.js:449-458 | The answer exists exactly for the two existing roles: mobile for the phone, desktop for the computer. |
| Login2.OfferedRolesOpposite | react-native/react/login2/register/existing-device/index.js:9-32 | For a known role, the computer button offers a computer and the phone button a phone, both on the other side of the pairing. With no role, neither button offers one. |
| Login2.OfferedRolesSymmetric | react-native/react/login2/register/existing-device/index.js:10-24 | A device in an offered role offers this device's role back. |
| Login2.OfferedPairsHaveModes | react-native/react/login2/register/existing-device/index.js:10-29 | Every offered pairing has a default code page mode. |
| Coinbase.CheckUsername | go/libkb/proof_support_coinbase.go:80-85 | Accepts exactly the names of the pattern: an optional '@', then 2 to 16 letters, digits or underscores, with Go's case folding. Otherwise the error names the input. |
| Coinbase.AcceptedShape | go/libkb/proof_support_coinbase.go:80-85 | An accepted name is 2 to 17 characters long, with an '@' at most at its start. |
| Coinbase.FoldedLettersAccepted | go/libkb/proof_support_coinbase.go:80-85 | The Kelvin sign and long s pass through case folding. Names that are too short, have a doubled '@', contain a dash or are too long are refused. |
| Coinbase.UsernameOfProfileURL | go/libkb/proof_support_coinbase.go:26-28 | A name read back from a URL has that URL as its profile URL. |
| Coinbase.ProfileURLRoundTrip | go/libkb/proof_support_coinbase.go:26-28 | The profile URL gives its username back, so distinct names have distinct URLs. |
| Coinbase.CheckHintCases | go/libkb/proof_support_coinbase.go:30-36 | The exact and lower-cased profile URLs are accepted. The URL of a name differing beyond case is refused. |
| Coinbase.PostInstructionsPointToProfile | go/libkb/proof_support_coinbase.go:99-103 | The instructions end with the profile URL, so a hint for where the user was told to post is accepted. |
| ProofCache.Unix | go/libkb/proof_cache.go:21-31 | The stored seconds are the nanosecond time floored to the second. |
| ProofCache.FromUnix | go/libkb/proof_cache.go:61-83 | A time read back from seconds gives those seconds again. |
| ProofCache.Pack | go/libkb/proof_cache.go:21-31 | The packed object holds the time in seconds, and a status {code, desc} exactly when there is an error. It has no other key. |
| ProofCache.NewCheckResult | go/libkb/proof_cache.go:61-83 | No result without an integer time. The status is empty exactly when absent or null. A present status gives a result exactly when the time, its string "desc" and its integer "code" all read, and the rebuilt status is the error with that code and description. The time is the stored seconds. |
| ProofCache.PackRoundTrip | go/libkb/proof_cache.go:21-83 | Unpacking a packed result gives the same status and the time cut to the second. |
| ProofCache.PackIdempotent | go/libkb/proof_cache.go:21-83 | Packing a result read back from storage stores the same object again. |
| ProofCache.FreshnessRunsOut | go/libkb/proof_cache.go:37-51 | A result fresh at some time was fresh at every earlier time. |
| ProofCache.MemLookup | go/libkb/proof_cache.go:110-132 | Memory hits only when it has a capacity, holds the key and the entry is fresh. A hit changes nothing, and the database is never touched. |
| ProofCache.DbLookup | go/libkb/proof_cache.go:163-194 | The database hits exactly with a decodable, fresh entry, and returns it. A hit changes nothing, a decodable stale entry is deleted, and memory is never touched. |
| ProofCache.GetIsFresh | go/libkb/proof_cache.go:145-155 | What Get returns is fresh. A fresh memory entry is returned without touching anything. |
| ProofCache.GetRemovesStale | go/libkb/proof_cache.go:110-194 | After Get no stale entry remains where Get looked. Nothing is added or rewritten. |
| ProofCache.PutThenGet | go/libkb/proof_cache.go:202-213 | Get after Put returns the stored result while it is fresh: exactly from memory, or with its time cut to the second from the database. |
| ProofCache.Cache.constructor | go/libkb/proof_cache.go:92-94 | A new cache has its capacity, an empty memory and the given database. |
| ProofCache.Cache.MemGet | go/libkb/proof_cache.go:110-132 | Returns, and leaves the stores in, what `MemLookup` specifies, removing a stale entry. |
| ProofCache.Cache.MemPut | go/libkb/proof_cache.go:134-143 | Stores the result in memory when there is a capacity. The database is left alone. |
| ProofCache.Cache.DbGet | go/libkb/proof_cache.go:163-194 | Returns, and leaves the stores in, what `DbLookup` specifies, deleting a stale entry. |
| ProofCache.Cache.DbPut | go/libkb/proof_cache.go:196-200 | Stores the packed result under the key. Memory is left alone. |
| ProofCache.Get | go/libkb/proof_cache.go:145-155 | No cache returns nothing. Otherwise memory first, then the database. |
| ProofCache.Put | go/libkb/proof_cache.go:202-213 | Stores the new result stamped with the current time in memory and in the database. |
| KbSig.KeySectionFields | go/libkb/kbsig.go:45-89 | Fails exactly when a PGP key's full hash is asked for and cannot be computed, with that error. Otherwise holds the kid and only key-section keys. |
| KbSig.KeySectionKids | go/libkb/kbsig.go:48-56 | The eldest and parent KIDs appear exactly when set. |
| KbSig.KeySectionRevSig | go/libkb/kbsig.go:58-66 | The reverse signature appears exactly when asked for, null when empty. |
| KbSig.KeySectionSigner | go/libkb/kbsig.go:68-72 | The host, UID and username appear exactly with a signing user. |
| KbSig.KeySectionPgp | go/libkb/kbsig.go:74-86 | The fingerprint and key ID appear exactly for a PGP key, and the full hash exactly when it is also asked for. |
| KbSig.ExplicitTipAgreesWithChain | go/libkb/kbsig.go:242-258 | An explicit last seqno and previous link give the same seqno and prev as a user whose sigchain ends at that link. |
| KbSig.NewLinkExtendsChain | go/libkb/kbsig.go:242-258 | The new link's seqno is one past the chain tip, so at least 1. Its prev is null only for the first link of an empty chain. |
| KbSig.MetadataKeySection | go/libkb/kbsig.go:236-296 | The key section of the metadata: the eldest defaults to the user's, and the signing user defaults to the user. |
| KbSig.ProofMetadataToJson | go/libkb/kbsig.go:236-308 | Fails exactly when its key section does. Otherwise has exactly the metadata keys (plus the Merkle root when seen), and a body with version, type and key. |
| KbSig.MetadataFields | go/libkb/kbsig.go:260-305 | tag is "signature". ctime and expire_in take their defaults when zero. seqno and prev follow the chain. The client and the Merkle root are as seen. |
| KbSig.DelegatedSection | go/libkb/kbsig.go:340-359 | The delegated key's section names the new key, with no eldest and no signing user. |
| KbSig.DelegationMetadata | go/libkb/kbsig.go:361-372 | The metadata of a delegation asks for the full hash exactly for an eldest link, with the delegation's type and signing key. |
| KbSig.KeyProofErrors | go/libkb/kbsig.go:336-396 | KeyProof fails exactly when the key section, the metadata or the device export does. |
| KbSig.KeyProofBody | go/libkb/kbsig.go:374-393 | The statement is the metadata's with a larger body. The body holds the device exactly when one is given, and the key section under the delegation type exactly when one was built. |
| KbSig.DelegationSections | go/libkb/kbsig.go:340-359 | What each delegation type puts in its section: <br>• sibkey: the reverse signature and the PGP full hash; <br>• pgp_update: only the full hash; <br>• other types: the parent KID. <br>An eldest link puts the hash in the metadata's key instead. |
| KbSig.SigIdsArray | go/libkb/kbsig.go:484-489 | The array holds each formatted signature ID, in order. |
| KbSig.RevokeMetadata | go/libkb/kbsig.go:474-480 | The revocation's metadata is usable and never asks for a full hash. |
| KbSig.RevokeSigsProof | go/libkb/kbsig.go:474-492 | Never fails. The statement is the revocation metadata with "revoke" added to the body, holding "sig_ids": the formatted IDs in order. |

## Left out

- The host navigator (React Native's Navigator) is not part of this model. HostNavigator records what the meta navigator asks of it. What the host does on popToRoute is not modelled: the history keeps its reversed order. `HostNavigator.Navigator.GetCurrentRoutes` is presumed to hand out the host's own history array, so the pop search's in-place `reverse()` reverses the host's history. If the host returns a copy instead, the search leaves the history untouched and only the copy is reversed.
- ShouldComponentUpdate: its promise that a pop leaves the host history reversed rests on that aliasing presumption about `getCurrentRoutes`. It is not a property of the meta navigator's own code.
- Resolution carries a step bound (`fuel`). The source's loop need not terminate in two ways. A chain of explicit continuations can go on for ever. A table that maps the key "undefined" to a class with a `parseRoute` also loops, because past the end of the path `nextPath.get('path')` is `undefined` and is looked up as that key. RouterRules.ExplicitChainUsesAllFuel proves that a chain whose every step continues explicitly uses all the fuel. By the last clause of `Resolution.IsResolutionFrom`, a run shorter than its bound stopped the way the source's loop stops.
- MetaNavigation.Decide, MetaNavigation.SamePathResets and MetaNavigation.MetaNavigator.ShouldComponentUpdate require a root class with a `parseRoute` and a positive bound. With a root that has none the stack is empty and `componentAtTop` stays `null`. The source's push branch then pushes `null`, and the reset branch resets the host to an empty stack. The pop search throws a TypeError on `null.component` when the host history is non-empty, and otherwise calls `popToRoute(undefined)`.
- The `parseRoute` of screens outside the modelled ones (the login form, welcome login and signup, and other global routes) is a parameter of the environment, and so is whether such a screen has one at all (`resolvable`). Their source is not part of this model.
- LoginContainerStep: the login container's routes are a plain object, so a next segment named after an `Object.prototype` member ("__proto__", "toString", "constructor") hits that member. The model presumes path names are never such names. For "__proto__" the source throws a TypeError, and for the others it calls a builtin as the resolver; the model continues into the login form.
- LoginContainerContinuesToForm: rests on the same presumption that the next path name is not an `Object.prototype` member name.
- RouterModel.Descriptor has no `props` (passed by the login container's `onLoggedIn`, login/index.js) and no `sceneConfig` (read by the host's scene configuration). Neither affects resolution or the navigation command.
- TabbedRouter: constants/tabs is not part of this model. The six declared tabs are taken to have distinct names, and an `UndeclaredTab` name is presumed never to equal a declared tab's string. The source compares plain strings, so such a name would select the declared tab.
- The React components' rendering, the Redux store wiring, `mapStateToProps` and the inner router reducer (reducers/router) are not modelled. The inner reducer is a parameter of TabbedRouter.
- The login2 role and mode constants are distinct constructors. The source switches on the concatenation of two role strings, which the model reads as one case per ordered pair of roles.
- Login2.Dispatcher.GenerateQRCode: the QR image comes from the qrcode-generator library. The action records the text code it is made from.
- The other login2 thunks are outside the named core: the login, registration, provisioning and engine session calls.
- basex lengths are computed exactly with integers where the source uses float64 logarithms. The model does not capture the source's floating point rounding.
- Go int widths are not modelled, except the unsigned conversion in `extraBits`.
- basex skip bytes are given as code points below 256. Go ranges over the runes of the skip string.
- BaseX.NewEncoding requires an alphabet of 2 to 254 bytes, a block length of at least 1 and skip runes below 256 (`SkipCodePoints`). The source accepts any of these, with these results:
  - a 255-byte alphabet stores index 254, which is the invalid marker 0xFE, so its last digit decodes as invalid;
  - a 256-byte alphabet stores index 255, which is the skip marker 0xFF;
  - longer alphabets wrap through `byte(i)`;
  - a base of 0 or 1 makes the logarithm 0 or negative infinity, and the block geometry comes from a float division by it;
  - a zero block length makes `EncodedLen` divide by zero.
  - a skip rune of 256 or more panics with an index out of range when the skip table is filled (encoding.go:71). This includes the U+FFFD that Go yields for invalid UTF-8, as in the skip string "\x80".
- BaseXRoundTrip.RoundTrip requires a repetition-free alphabet. With a repeated byte the source decodes to the last index and the round trip can fail.
- ProofCache: the LRU eviction order and recency, the mutex, the database's I/O errors, logging and the key formatting `dbKey` are not modelled. The database is a map from SigID to JSON.
- ProofCache: the current time and the soft-error classification (`ProofErrorIsSoft`) are parameters.
- KbSig: the following are parameters:
  - PGP full-hash computation;
  - the PGP key ID, a field of the key bundle (`PgpBundle.keyId`), where the source derives it from the fingerprint (`fingerprint.ToKeyID()`);
  - device export;
  - the signing key choice (`GetSigningKey`);
  - SigID formatting (`ToString(true)`).
- KbSig: the global constants (canonical host, expiry default, client version and name, signature version) and the Merkle root come through `Env`.
- KbSig.ProofMetadataToJson and KbSig.KeyProof require the user to be set whenever the source dereferences it: the source would panic.
- KbSig.KeyProof also requires, through `DelegatorReady`, an existing key for delegation types other than eldest, sibkey and pgp_update (the source calls `ExistingKey.GetKID()`), and a new key whenever a device is given (the source calls `NewKey.GetKID()`). Without them the source would panic on a nil key.
- KbSig: the tracking, untracking, service, authentication, key revocation, cryptocurrency statements and signing in kbsig.go are outside the named core.
- Coinbase: the remote check (`CheckStatus`) makes an HTTP request and is not modelled. `strings.ToLower` is modelled on ASCII letters only.
- UIGroup.String: a value outside the seven kinds panics in the source and is a precondition here.
