# Varlock: verified models

Dafny models of the parts of Varlock whose behaviour is hardest to see from the code, with proofs of
what they promise. `dafny verify dfyconfig.toml` checks everything.

- **env-spec expansion** (`EnvSpec*.dfy`, `Strings.dfy`). `expand` compiles a string such as
  `a-${B:-x}-$(cmd $C)` in three passes into `ref`, `fallback`, `exec` and `concat` calls, and
  `simpleResolver` evaluates the result. The shell is an unknown function of command and environment.
  The main results: each pass leaves the value of every tree unchanged; an expanded tree or file has the
  value of the one as written with each string read once from left to right; the text of an expanded string
  is that of plain substitution, without the compiler's slices and coercions; no `concat` is left directly
  inside another. Where the passes and one reading part is said exactly, for the pieces and for the values;
  where a quoted string falls short of plain substitution is said exactly too. What these results rest on is
  written out as well: which texts are references (`EnvSpecPatterns.dfy`), what static values are worth
  (`EnvSpecTexts.dfy`), and what every call resolves to, argument by argument (`EnvSpecCalls.dfy`).
- **Unix daemon election** (`DaemonElection.dfy`, `DaemonShutdown.dfy`). Any number of daemons interleave their open, flock,
  stat, unlink, bind, close and crash steps on a lock path whose inode can be replaced. The main results:
  one inductive invariant with election and file-ownership safety in every reachable state, the outcome of
  every run without faults, the protocol call by call, and that a daemon that shuts down removes its files.
- **Key store** (`KeyProtection.dfy`, `KeyStore.dfy`, `KeyRecovery.dfy`, `PayloadCrypto.dfy`). The class
  `Store` holds the keyring and the key files; its methods have the branches of the source and take the
  answers of the backends as parameters. The main results: every protection tier gives the key back for
  every pattern of failing calls, exactly which answers make one operation lose a key, that a load
  records the stronger tier and no weaker one, and decryption at any later point of a run.
- **Sessions and framing** (`Sessions.dfy`, `Framing.dfy`, `Bytes.dfy`). The session manager, the daemon's
  handlers on it, and the interleaving of decrypts, invalidations and pruning. The main results: where every
  plaintext comes from, terminal by terminal, and exactly when a session has ended. The length-prefixed message stream, read in
  chunks of any size.
- **Separate algorithms**: the calendar of key creation times (`Calendar.dfy`), the preview release closure
  (`ReleaseClosure.dfy`) and the argument splitter of the editor plugin (`ArgSplitter.dfy`).

## Assumptions

- Key store: `KeyProtection.Sound` lists what is assumed of base64, PKCS8 and the TPM, and
  `PayloadCrypto.SuiteSound` what is assumed of ECDH and AES-GCM (`AssumptionsAreConsistent`: both can hold at once). A failed keyring store changes nothing.
  A key that is kept is `TpmFaithful`: it survives the conversion to a scalar. That an operation loses a key
  also takes that the key does not itself read as a sealed blob (`Sturdy`), which `KeyIsNoBlob` shows for
  PKCS8 keys of under 256 bytes.
- Election: an inode that a daemon still has open is not reused, and closing a file or dying releases its
  flock.
- Sessions: in the interleaving of decrypts biometric verification is available (without it every check clears
  its request at once, as the handlers show); the clock does not run backwards.
- env-spec: where "Left out" says so a quoted string is `Settled`: no backslash and quote pair is left in it once
  its own quotes are off. `EnvSpecWorn` says what becomes of the others.

## Where the code does less than expected

- `load_key` can lose a key stored in the keyring and sealed by the TPM. Protecting it again happens before
  the ranks are compared, so when the raw key ends up in the keyring (the TPM is gone by then, or sealing
  fails, or the sealed blob cannot be stored but the raw key can) the record still says "sealed" and can
  never be opened again. This happens even when the TPM that unsealed the key also seals it again.
  `KeyRecovery.LoadKeepsKey` has the exact condition, `LoadCanLoseSealedKey` two concrete cases.
- Failing key-file writes lose a key in `load_key` and `rewrap_key` exactly as `LoadLoses` and `RewrapLoses`
  say, since the keyring has changed already or the file is truncated in place.
- Invalidating sessions ends a session exactly when every decrypt of it in flight still has its presence check
  before it (`Sessions.InvalidationEndsSession`). One that is past it marks the session warm again, and later
  decrypts need no presence (`InFlightDecryptSurvivesInvalidation` is such a run).
- A reference inside a default, as in `${A:-$B}`, is cut out by the earlier pass and the braces stay literal
  (`EnvSpecReading.DefaultReferenceDiffers` and `DefaultReferenceValue`). A command inside a default is cut
  out too (`EnvSpecCuts.DefaultCommandDiffers`), and one that never closes hides every later command.
  `EnvSpecCuts.ReferencePassesAgree` and `CommandPassesAgree` say exactly when two passes equal one reading.
  Where the commands run every cut shows in the value in some environment (`EnvSpecExact.ExpandedLeafExactly`).
- A slice of a quoted string is quoted and unescaped again, which changes it exactly when it still holds a
  backslash and quote pair (`EnvSpecReading.RewrapKeepsText`). So a quoted string in which something is expanded
  loses backslashes exactly when a piece that is used holds a pair (`EnvSpecWorn.QuotedFallsShort`;
  `WornFallsShort` is the string `\"$A`).
- `autoCoerce` loses the text `undefined` and no other (`EnvSpecNodes.CoercionKeepsText`), so an unquoted
  slice or default `undefined` contributes nothing (`EnvSpecPlain.ReadingFallsShort`). An unquoted command
  that coerces to a boolean or number, such as `$(true)` or `$(5)`, is refused and the value cannot be
  resolved (`EnvSpecPlain.ExpandedLeafThrows`, `TrueIsRefused`).
- In triple quotes `toString()` does not escape a single quote mark that follows a backslash, so a value with
  one does not survive printing and reading (`EnvSpecNodes.ToStringRoundTripTriple`, `LooseQuoteIsLost`).
- Creation times sort as text only through the year 9999 (`Calendar.SortEndsAt9999`).

## Model

| member | source | states |
|---|---|---|
| EnvSpecNodes.CoercionKeepsText | packages/env-spec-parser/src/helpers.ts:7-30 | coercing keeps the text that a value joins as, exactly when the text is not `undefined` |
| EnvSpecNodes.CoercedTextIsPlain | packages/env-spec-parser/src/helpers.ts:5-29 | a text that coercion turns into something else holds no `$`, so no later pass would have expanded it |
| EnvSpecNodes.EscapeUnescape | packages/env-spec-parser/src/classes.ts:66-70 | escaping a quote mark and unescaping it gives back every text, also one that already holds backslash and quote pairs |
| EnvSpecNodes.UnescapeSplits | packages/env-spec-parser/src/classes.ts:49-61 | unescaping two parts alone equals unescaping the whole when the first does not end in a backslash |
| EnvSpecNodes.ToStringRoundTrip | packages/env-spec-parser/src/classes.ts:63-71 | a static value in one-character quotes rebuilt from its own `toString()` has the same value |
| EnvSpecNodes.EscapeTripleRoundTrip | packages/env-spec-parser/src/classes.ts:66-70 | escaping three quotes in a row and unescaping quotes gives a text back exactly when no quote behind a backslash is left unescaped |
| EnvSpecNodes.ToStringRoundTripTriple | packages/env-spec-parser/src/classes.ts:63-71 | a value in triple quotes comes back from its own `toString()` exactly under that condition |
| EnvSpecNodes.LooseQuoteIsLost | packages/env-spec-parser/src/classes.ts:63-71 | a backslash and a quote between triple quotes do not come back |
| EnvSpecTexts.NumberPattern | packages/env-spec-parser/src/helpers.ts:1-5 | a text has the shape of a number exactly when it is a sign or none, no digits or `0` or digits without a leading zero, and no fraction or a point with digits |
| EnvSpecTexts.CoercionCases | packages/env-spec-parser/src/helpers.ts:7-30 | `true`, `false`, `undefined` and numbers that print back as they are coerce, every other text stays |
| EnvSpecTexts.QuotedValue | packages/env-spec-parser/src/classes.ts:41-46 | a text without backslashes between quote marks of each of the five kinds is worth that text |
| EnvSpecTexts.UnquotedValue | packages/env-spec-parser/src/classes.ts:41-46 | a quoted text loses what stands in the place of its marks, or is empty when it is too short for them, and a backslash before the quote mark is dropped, and no other |
| EnvSpecTexts.UnquotedText | packages/env-spec-parser/src/classes.ts:27-40 | an unquoted text is trimmed and coerced, one of white space alone is undefined |
| EnvSpecTexts.TrimsWhiteSpace | packages/env-spec-parser/src/classes.ts:33 | the characters trimmed are those that ECMAScript calls white space or line ends, by code point |
| EnvSpecTexts.UnescapeDecodes | packages/env-spec-parser/src/classes.ts:49-61 | unescaping decodes an escaped dollar outside single quotes, and an escaped n between double quotes and backticks, and nothing else |
| EnvSpecPatterns.SimplePattern | packages/env-spec-parser/src/expand.ts:8 | a simple reference matches at a place exactly when an unescaped `$` stands there before a name of the written-out characters, the longest one |
| EnvSpecPatterns.BracketedPattern | packages/env-spec-parser/src/expand.ts:7 | a bracketed reference matches exactly when an unescaped `$` stands before braces around a name with dots, alone or with `-` or `:-` and a default that is not empty and holds no closing brace |
| EnvSpecPatterns.EveryMatchFound | packages/env-spec-parser/src/expand.ts:144-203 | a pass reports every match that no earlier match covers |
| EnvSpecPatterns.SimpleReference | packages/env-spec-parser/src/expand.ts:144-203 | the first piece of `$NAME` and whatever cannot go on with the name is the reference to it |
| EnvSpecPatterns.BracedReference | packages/env-spec-parser/src/expand.ts:144-203 | the first piece of `${NAME}`, `${NAME-d}` and `${NAME:-d}` is the reference, with its default |
| EnvSpecHoles.ScanIsFold | packages/env-spec-parser/src/expand.ts:37-59 | the command loop computes the fold of the scanner step up to the first index of depth zero, or to the end |
| EnvSpecHoles.CloseOfIsFirst | packages/env-spec-parser/src/expand.ts:37-67 | a command ends at the first `)` that brings the quote-aware depth to zero, or the depth never gets there |
| EnvSpecHoles.HolesInOrder | packages/env-spec-parser/src/expand.ts:20-73 | the matches are disjoint, in order, and each is the match at its own start |
| EnvSpecSplitting.ReportedCommand | packages/env-spec-parser/src/expand.ts:61-67 | a reported span is an unescaped `$(`, the body and the parenthesis that closes it |
| EnvSpecSplitting.UnreportedIsUnbalanced | packages/env-spec-parser/src/expand.ts:22-71 | an unescaped `$(` outside every reported span lies at or behind one that never closes, after the last reported span |
| EnvSpecSplitting.SplitKeepsText | packages/env-spec-parser/src/expand.ts:106-131 | the raw texts of the parts of a command or simple reference split join back to the input |
| EnvSpecDiverging.PassesAgree | packages/env-spec-parser/src/expand.ts:297-299 | on every string two successive passes give the pieces of one left-to-right reading exactly when the first makes the very matches of its kind that the one reading makes; for commands before references and for simple before bracketed references |
| EnvSpecDiverging.CutShows | packages/env-spec-parser/src/expand.ts:297-299 | where the first pass cuts, the two texts are equal up to a point where one reading has an expansion and the passes go on with literal text |
| EnvSpecCuts.UndisturbedIsUncut | packages/env-spec-parser/src/expand.ts:297-299 | that is so whenever no match of the second pass holds a `$` that the first reacts to |
| EnvSpecCuts.ReferencePassesAgree | packages/env-spec-parser/src/expand.ts:298-299 | for the two reference passes it is so exactly then |
| EnvSpecCuts.CommandPassesAgree | packages/env-spec-parser/src/expand.ts:297-299 | for commands before references it is so exactly when, up to the first `$(` outside a reference that never closes, no reference holds a `$(`, save for a first one that never closes with no command behind the reference |
| EnvSpecCuts.DefaultCommandDiffers | packages/env-spec-parser/src/expand.ts:297-299 | on `${A:-$(b)}` the passes and one reading give different pieces |
| EnvSpecStaged.PassesAreStaged | packages/env-spec-parser/src/expand.ts:298-299 | the pieces of the two reference passes, cut or not, are those of one scan that skips the references it cuts |
| EnvSpecExpand.ScanCommand | packages/env-spec-parser/src/expand.ts:37-59 | the inner loop stops where the specified scan does, at the depth it has there |
| EnvSpecExpand.FindExecExpansions | packages/env-spec-parser/src/expand.ts:20-73 | the scanner loops return exactly the matches of the specification |
| EnvSpecExpand.BuildParts | packages/env-spec-parser/src/expand.ts:108-131 | the loop that pushes slices and calls builds the nodes of the pieces around the matches |
| EnvSpecExpand.ExpandExecs | packages/env-spec-parser/src/expand.ts:95-142 | the command pass on a static value builds the specified node, with its early returns |
| EnvSpecExpand.ExpandRefs | packages/env-spec-parser/src/expand.ts:144-203 | the same for the simple and the bracketed reference pass |
| EnvSpecExpand.PassIsPointwise | packages/env-spec-parser/src/expand.ts:213-284 | a pass expands each argument, entry and element in its place, under its own key |
| EnvSpecExpand.ConcatIsSpliced | packages/env-spec-parser/src/expand.ts:218-242 | in a concat an argument that becomes a concat is replaced by its arguments, any other by what it becomes |
| EnvSpecExpand.LeafStays | packages/env-spec-parser/src/expand.ts:95-104 | what is no string, stands in single quotes or holds no match stays as it is |
| EnvSpecResolve.SimpleResolver | packages/env-spec-parser/src/simple-resolver.ts:12-135 | the item loop fills the record that the evaluation of the file specifies, or fails with its error |
| EnvSpecResolve.ResolvedStatic | packages/env-spec-parser/src/simple-resolver.ts:24 | a static value resolves to its `unescapedValue` |
| EnvSpecCalls.RemapPicks | packages/env-spec-parser/src/simple-resolver.ts:97-105 | a remap resolves to the result of the first pair whose match is strictly equal to its value |
| EnvSpecCalls.RemapFallsThrough | packages/env-spec-parser/src/simple-resolver.ts:106-114 | when no pair matches it resolves to the odd last argument, else to the value itself |
| EnvSpecCalls.RemapFails | packages/env-spec-parser/src/simple-resolver.ts:97-105 | it fails at the first pair that is keyed or whose match fails, when none before it matches |
| EnvSpecCalls.RemapNeedsValue | packages/env-spec-parser/src/simple-resolver.ts:88-93 | without a static value or call as first argument it fails, and with the error of that argument |
| EnvSpecCalls.FallbackPicks | packages/env-spec-parser/src/simple-resolver.ts:77-86 | a fallback resolves to its first argument that is neither undefined nor empty, a keyed or failing one ends it, and nothing left is undefined |
| EnvSpecCalls.ListResolves | packages/env-spec-parser/src/simple-resolver.ts:25-30 | a list resolves to the values of its elements, index by index |
| EnvSpecCalls.ListFails | packages/env-spec-parser/src/simple-resolver.ts:25-30 | or fails at its first element that is keyed or fails |
| EnvSpecCalls.ObjectResolves | packages/env-spec-parser/src/simple-resolver.ts:31-37 | an object has the keys of its entries, each with the value of the last entry of that key |
| EnvSpecCalls.ObjectFails | packages/env-spec-parser/src/simple-resolver.ts:31-37 | or fails at its first entry that does |
| EnvSpecCalls.ConcatJoins | packages/env-spec-parser/src/simple-resolver.ts:48-59 | a concat joins the texts of its arguments in their order |
| EnvSpecCalls.ConcatFails | packages/env-spec-parser/src/simple-resolver.ts:48-59 | or fails at its first argument that is no static value or call, or that fails |
| EnvSpecCalls.TextOfList | packages/env-spec-parser/src/simple-resolver.ts:59 | a list joins as its texts with commas between them, an object as `[object Object]` |
| EnvSpecCalls.RefReads | packages/env-spec-parser/src/simple-resolver.ts:39-44 | a ref is the environment's value, else the earlier item's, else the empty string |
| EnvSpecCalls.RefOfNothing | packages/env-spec-parser/src/simple-resolver.ts:39-44 | a ref without arguments looks up the name `undefined` |
| EnvSpecCalls.RefFails | packages/env-spec-parser/src/simple-resolver.ts:39-47 | a ref whose arguments are not all static values fails |
| EnvSpecCalls.CommandSees | packages/env-spec-parser/src/simple-resolver.ts:70-72 | a command sees the earlier items, and the environment over them |
| EnvSpecCalls.ExecRuns | packages/env-spec-parser/src/simple-resolver.ts:60-76 | exec runs its one argument when that is a string, and trims the output |
| EnvSpecCalls.OtherwiseUnknown | packages/env-spec-parser/src/simple-resolver.ts:115-119 | a call of any other name fails, and a bare argument list is undefined |
| EnvSpecMeaning.ConcatAppend | packages/env-spec-parser/src/simple-resolver.ts:48-59 | the text of joined argument lists is the joined text, or the first error |
| EnvSpecMeaning.SpliceKeepsText | packages/env-spec-parser/src/expand.ts:225-230 | putting a nested concat's arguments in its place leaves the resolved text unchanged |
| EnvSpecMeaning.PassKeepsMeaning | packages/env-spec-parser/src/expand.ts:213-284 | on every tree each pass keeps the resolved value or error, when a string leaf stands for what the remaining passes make of it |
| EnvSpecMeaning.ExpandKeepsMeaning | packages/env-spec-parser/src/expand.ts:290-301 | on every tree the three passes together do so: resolving the expanded tree is resolving the unexpanded one with each string worth what the passes in turn make of it |
| EnvSpecMeaning.ExpandKeepsFile | packages/env-spec-parser/src/simple-resolver.ts:121-134 | the same for the whole item list, where later items see the values of earlier ones |
| EnvSpecMeaning.PassFlattens | packages/env-spec-parser/src/expand.ts:218-242 | after each pass no concat in the tree has a concat as a direct argument |
| EnvSpecReading.RewrapKeepsText | packages/env-spec-parser/src/expand.ts:76-92 | a slice quoted again keeps its text exactly when it holds no backslash and quote pair |
| EnvSpecReading.PassesReadOnce | packages/env-spec-parser/src/expand.ts:290-301 | when nothing is cut the three passes give a string the value of one reading that substitutes commands and references left to right |
| EnvSpecReading.ExpandedLeafReads | packages/env-spec-parser/src/simple-resolver.ts:22-119 | then resolving an expanded string value gives that value, error for error |
| EnvSpecReading.SlicesUnescapeAlone | packages/env-spec-parser/src/classes.ts:49-61 | unescaping slice by slice and joining equals unescaping the literal text as a whole, for every pass and quote |
| EnvSpecReading.PlainDefaultsAreUncut | packages/env-spec-parser/src/expand.ts:297-299 | nothing is cut in a string whose defaults hold no `$` that an earlier pass reacts to |
| EnvSpecReading.DefaultReferenceDiffers | packages/env-spec-parser/src/expand.ts:298-299 | on `${A:-$B}` the two passes and one reading give different pieces |
| EnvSpecReading.DefaultReferenceValue | packages/env-spec-parser/src/expand.ts:298-299 | and with neither name set different values: the passes leave `${A:-}`, the default is `$B` |
| EnvSpecTrees.NoHolesAtOnce | packages/env-spec-parser/src/expand.ts:95-203 | no pass finds anything in a text exactly when one reading finds nothing, which decides whether a `ref` argument stays a static value |
| EnvSpecTrees.TreeReadsOnce | packages/env-spec-parser/src/simple-resolver.ts:21-119 | reading each string of a tree in stages or once gives the tree the same value |
| EnvSpecTrees.ExpandedTreeReads | packages/env-spec-parser/src/simple-resolver.ts:21-119 | resolving an expanded tree of calls, lists and objects gives the value of the tree as written with each string read once |
| EnvSpecTrees.ExpandedFileReads | packages/env-spec-parser/src/simple-resolver.ts:121-134 | the same for a whole file |
| EnvSpecPlain.SliceIsPlain | packages/env-spec-parser/src/classes.ts:27-61 | every slice contributes its unescaped text, and falls short of it exactly when it is the unquoted `undefined` or a quoted one that holds a backslash and quote pair |
| EnvSpecPlain.KeptIsPlain | packages/env-spec-parser/src/expand.ts:76-203 | one reading of pieces that lose no text and whose commands run is plain substitution, error for error |
| EnvSpecPlain.ReadingFallsShort | packages/env-spec-parser/src/expand.ts:76-203 | without commands one reading falls short of plain substitution exactly when a used piece loses text |
| EnvSpecPlain.RefusedCommandThrows | packages/env-spec-parser/src/simple-resolver.ts:66-67 | pieces with a command whose value is not a string have no value |
| EnvSpecPlain.ExpandedLeafIsPlain | packages/env-spec-parser/src/simple-resolver.ts:22-119 | the text of an expanded string value is that of plain substitution into it |
| EnvSpecPlain.ExpandedLeafThrows | packages/env-spec-parser/src/simple-resolver.ts:66-67 | a string value with a refused command cannot be resolved |
| EnvSpecPlain.TrueIsRefused | packages/env-spec-parser/src/simple-resolver.ts:66-67 | `true` is refused as an unquoted command and runs as a quoted one |
| EnvSpecExact.CutChangesValue | packages/env-spec-parser/src/expand.ts:290-301 | on every string that a pass cuts, commands included, the environment that sets each name to `#` and echoes each command makes the value differ from one reading |
| EnvSpecExact.ReferencesReadOnce | packages/env-spec-parser/src/expand.ts:298-299 | the two reference passes give the value of one reading in every environment exactly when no bracketed reference has a simple one in its default |
| EnvSpecExact.ExpandedLeafExactly | packages/env-spec-parser/src/expand.ts:290-301 | a string value, commands included, resolves to the value of one reading in every environment exactly when nothing is cut |
| EnvSpecRewrap.SplitRewrapped | packages/env-spec-parser/src/expand.ts:76-92 | quoting a text again and unescaping it does the same to each of its pieces, and moves no reference |
| EnvSpecWorn.QuotedFallsShort | packages/env-spec-parser/src/expand.ts:76-203 | every quoted string, whatever it holds: the reference passes give the text of plain substitution into their pieces exactly when they find nothing or no used piece holds a backslash and quote pair |
| EnvSpecWorn.WornFallsShort | packages/env-spec-parser/src/expand.ts:76-92 | `\"$A` between double quotes falls short in every environment |
| EnvSpecWorn.ExpandedQuotedExactly | packages/env-spec-parser/src/simple-resolver.ts:22-119 | the text of an expanded quoted value without commands is that of plain substitution into it exactly under that condition |
| Strings.TrimSplits | packages/env-spec-parser/src/classes.ts:33-36 | trimming takes white space off both ends and nothing else |
| Strings.ReplacePairSplits | packages/env-spec-parser/src/classes.ts:54-59 | replacing a two-character pair splits at every cut that does not divide a pair |
| Strings.ReplacePairFixed | packages/env-spec-parser/src/classes.ts:43-45 | replacing a pair by its second character changes a text exactly when the pair occurs |
| DaemonElection.RunKeepsInv | packages/encryption-binary-rust/src/ipc.rs:322-346 | every step of every daemon keeps the invariant, over every run from unlocked files |
| DaemonElection.ElectionIsSafe | packages/encryption-binary-rust/src/ipc.rs:322-346 | at most one daemon is between passing the inode check and unlinking its lock file, and the path names the inode it holds |
| DaemonElection.SocketIsOwn | packages/encryption-binary-rust/src/ipc.rs:95-120 | from bind to its own cleanup a daemon's socket path names its own socket |
| DaemonElection.OnlyOwnersUnlink | packages/encryption-binary-rust/src/ipc.rs:297-311 | a cleanup unlinks only the daemon's own files, and the second cleanup on drop unlinks nothing |
| DaemonElection.FilesStayOwned | packages/encryption-binary-rust/src/ipc.rs:95-120 | no step of one daemon changes either path while another owns it |
| DaemonElection.LoserAnnouncesNothing | packages/encryption-binary-rust/src/daemon.rs:172-207 | a daemon told that the lock is held never ran its listening callback |
| DaemonElection.OneWinner | packages/encryption-binary-rust/src/ipc.rs:326-345 | without faults nobody retries, and once all starters have returned exactly one holds the lock and the rest were told so |
| DaemonElection.ElectionEnds | packages/encryption-binary-rust/src/daemon.rs:196-207 | a run without faults of n starters has at most 9n steps and can only come to rest with one daemon serving, announced, and the others gone, unannounced |
| DaemonShutdown.CallsFollow | packages/encryption-binary-rust/src/ipc.rs:95-346 | the protocol, call by call: what a daemon may do next is settled by its last call and by what that call met in paths, locks and its own flags, and no other daemon takes it back |
| DaemonShutdown.CallsBegin | packages/encryption-binary-rust/src/ipc.rs:326-333 | a starter begins with opening the lock file |
| DaemonShutdown.CallsOnPaths | packages/encryption-binary-rust/src/ipc.rs:95-120 | what each call makes of the two paths: opening and binding fill an empty one, unlinks empty them, nothing else touches them |
| DaemonShutdown.CallsOnLocks | packages/encryption-binary-rust/src/ipc.rs:322-346 | what each call makes of the locks held |
| DaemonShutdown.CallsOnFile | packages/encryption-binary-rust/src/ipc.rs:322-346 | which file a daemon has open after each call |
| DaemonShutdown.CallsOnVerdicts | packages/encryption-binary-rust/src/ipc.rs:95-120 | what each call makes of the report: stopped, refused, failed, and failed at the fifth mismatch |
| DaemonShutdown.RefusedWhenHeld | packages/encryption-binary-rust/src/ipc.rs:334-337 | a starter is refused exactly when another daemon holds the lock of the file it opened |
| DaemonShutdown.ShutdownCleansUp | packages/encryption-binary-rust/src/ipc.rs:297-311 | in every run a daemon told to stop unlinks its socket and then its lock file, once each, before it closes the lock file and exits |
| DaemonShutdown.NothingIsLeft | packages/encryption-binary-rust/src/ipc.rs:297-303 | and when no other daemon moves and no unlink fails neither path is left |
| DaemonShutdown.LoneDaemonLeavesNothing | packages/encryption-binary-rust/src/ipc.rs:297-311 | in every run of one daemon that is told to stop, does not crash and whose unlinks do not fail, neither file is left once it has exited |
| DaemonShutdown.FiveAttempts | packages/encryption-binary-rust/src/ipc.rs:326-345 | a starter opens the lock file at most five times in every run, and fails after the fifth mismatch |
| Bytes.LittleEndianRoundTrip | packages/encryption-binary-rust/src/ipc.rs:474-475 | a 32-bit number survives its four little-endian bytes |
| Bytes.FromLittleEndianRoundTrip | packages/encryption-binary-rust/src/ipc.rs:425 | four bytes survive being read as a number |
| KeyProtection.TpmRoundTrip | packages/encryption-binary-rust/src/key_store/scalar.rs:11-29 | a key comes back from its scalar exactly when its DER is canonical, or does not parse and is not 32 bytes long |
| KeyProtection.BlobRoundTrip | packages/encryption-binary-rust/src/key_store/linux.rs:134-155 | the packed sealed object parses into its two parts exactly when the length fits 32 bits |
| KeyProtection.ParsedIsPacked | packages/encryption-binary-rust/src/key_store/linux.rs:145-155 | whatever parses as a blob is the packing of its parts |
| KeyProtection.KeyIsNoBlob | packages/encryption-binary-rust/src/key_store/linux.rs:145-153 | a PKCS8 key of under 256 bytes, as every P-256 key is, never parses as a blob |
| KeyProtection.TiersGiveKeyBack | packages/encryption-binary-rust/src/key_store/mod.rs:178-230 | whatever subset of seals and stores fails, the returned pair and the keyring left behind give the key back; in the TPM tiers exactly when the key survives as a scalar |
| KeyProtection.KeyringOnlyInItsTiers | packages/encryption-binary-rust/src/key_store/mod.rs:184-213 | the keyring changes exactly in the keyring tiers, to what that tier reads |
| KeyProtection.ProtectedAsAnnounced | packages/encryption-binary-rust/src/key_store/mod.rs:352-368 | a key gets the announced tier exactly when no seal or store fails, never a stronger one, and plaintext only when every available tier has failed |
| KeyStore.Store.Tpm2Protect | packages/encryption-binary-rust/src/key_store/linux.rs:128-140 | the sealed parts are packed as length, public part, private part |
| KeyStore.Store.ProtectPrivateKey | packages/encryption-binary-rust/src/key_store/mod.rs:155-236 | the cascade of tiers with its fallbacks picks the tier of the decision table and leaves its keyring entry |
| KeyStore.Store.UnprotectPrivateKey | packages/encryption-binary-rust/src/key_store/mod.rs:241-292 | it yields the recoverable key when the backends its tier needs answer, else an error |
| KeyStore.Store.Tpm2Unprotect | packages/encryption-binary-rust/src/key_store/linux.rs:144-218 | a blob is parsed, unsealed and turned back into PKCS8, or refused |
| KeyStore.Store.WriteStoredKey | packages/encryption-binary-rust/src/key_store/mod.rs:468-502 | a write succeeds, fails before the file is opened, or leaves it cut |
| KeyStore.Store.GenerateKey | packages/encryption-binary-rust/src/key_store/mod.rs:417-438 | the new state of keyring and files, and when it reports success |
| KeyStore.Store.LoadKey | packages/encryption-binary-rust/src/key_store/mod.rs:528-540 | the key handed out and the state after the automatic rewrap |
| KeyStore.Store.MaybeAutoRewrap | packages/encryption-binary-rust/src/key_store/mod.rs:307-325 | a stronger tier is recorded, a weaker or equal one is not, and the keyring changes either way |
| KeyStore.Store.RewrapKey | packages/encryption-binary-rust/src/key_store/mod.rs:445-466 | it succeeds exactly when the key unlocks, the tier is another one and the record is written; the keyring changes before the same tier is refused |
| KeyStore.Store.LoadPublicKey | packages/encryption-binary-rust/src/key_store/mod.rs:543-549 | the public key of the record, or why there is none |
| KeyStore.Store.DeleteKey | packages/encryption-binary-rust/src/key_store/mod.rs:505-525 | the keyring entry goes only with a keyring tier and best effort; success is the file's removal |
| KeyRecovery.LoadKeepsKey | packages/encryption-binary-rust/src/key_store/mod.rs:528-540 | after a load the key is still recoverable when the raw key did not overwrite a sealed one and recording a stronger tier did not fail, and only then |
| KeyRecovery.RewrapKeepsKey | packages/encryption-binary-rust/src/key_store/mod.rs:445-466 | after a rewrap it is when recording a different tier did not fail in a way that matters, and only then |
| KeyRecovery.GeneratedIsHeld | packages/encryption-binary-rust/src/key_store/mod.rs:417-438 | a generated key is recoverable with its public key once its file is written, whatever was there before |
| KeyRecovery.GenerateKeepsKey | packages/encryption-binary-rust/src/key_store/mod.rs:417-438 | when generating again for the same key leaves the old key the one that comes back |
| KeyRecovery.EventKeepsKey | packages/encryption-binary-rust/src/key_store/mod.rs:417-540 | the exact condition for every operation on any key, generating again included |
| KeyRecovery.OthersUntouched | packages/encryption-binary-rust/src/key_store/mod.rs:417-540 | an operation on one key leaves the file and keyring entry of every other key alone |
| KeyRecovery.NamesAgreeFromNothing | packages/encryption-binary-rust/src/key_store/mod.rs:417-540 | from an empty store on every record stands under its own name, which the other results ask of a store |
| KeyRecovery.RunKeepsKey | packages/encryption-binary-rust/src/key_store/mod.rs:417-540 | over any run in which no operation loses the key, private and public key come back unchanged |
| KeyRecovery.HeldOnlyIfHarmless | packages/encryption-binary-rust/src/key_store/mod.rs:417-540 | the key comes back in every state of a run exactly when no operation of the run loses it |
| KeyRecovery.GeneratedKeySurvives | packages/encryption-binary-rust/src/key_store/mod.rs:417-540 | from any store, a key comes back after its generation and any further run that does not lose it |
| KeyRecovery.LoadNeverDowngrades | packages/encryption-binary-rust/src/key_store/mod.rs:295-324 | a load never lowers the rank of the recorded tier nor changes the public key, whatever fails |
| KeyRecovery.RankOrders | packages/encryption-binary-rust/src/key_store/mod.rs:295-303 | the ranks order the tiers: plaintext, DPAPI, TPM, keyring and NCrypt, keyring with the TPM |
| KeyRecovery.LoadUpgrades | packages/encryption-binary-rust/src/key_store/mod.rs:307-325 | a load that hands a key out and writes its file records the tier picked when it is the stronger one in that order, and leaves the record alone otherwise |
| KeyRecovery.LoadLeavesPlaintext | packages/encryption-binary-rust/src/key_store/mod.rs:307-325 | after it a key is in plaintext exactly when it was and every seal and store reached has failed |
| KeyRecovery.UnreadableKey | packages/encryption-binary-rust/src/key_store/mod.rs:528-540 | a missing or unreadable record gives its error and changes nothing |
| KeyRecovery.DeleteForgets | packages/encryption-binary-rust/src/key_store/mod.rs:505-525 | deleting takes away the file, the keyring entry of a keyring tier, and nothing of another key |
| KeyRecovery.DowngradeKeepsKey | packages/encryption-binary-rust/src/key_store/mod.rs:455-465 | a rewrap may record a weaker tier, and the key survives it |
| KeyRecovery.LoadCanLoseSealedKey | packages/encryption-binary-rust/src/key_store/mod.rs:307-325 | two concrete patterns of answers in which a load hands the key out and leaves a record that no later load or rewrap can open |
| PayloadCrypto.Encrypt | packages/encryption-binary-rust/src/crypto.rs:68-139 | the pushes build the specified payload, with the error of each check |
| PayloadCrypto.Decrypt | packages/encryption-binary-rust/src/crypto.rs:146-229 | taking the payload apart gives the specified text or the error of the first check that fails |
| PayloadCrypto.PayloadParts | packages/encryption-binary-rust/src/crypto.rs:130-165 | the payload is cut where it was joined |
| PayloadCrypto.WireFormat | packages/encryption-binary-rust/src/crypto.rs:16-139 | a payload is the byte 1, 65 bytes of ephemeral public key, 12 of nonce and the sealed text with a tag of 16, under a key derived with the salt `varlock-ecies-v1` from both public keys |
| PayloadCrypto.DecryptUndoesEncrypt | packages/encryption-binary-rust/src/crypto.rs:68-229 | decrypting what was encrypted for a key pair gives the plaintext, for every text, ephemeral key and nonce |
| PayloadCrypto.EncryptSucceeds | packages/encryption-binary-rust/src/crypto.rs:68-139 | with a public key of the store only the cipher can refuse |
| PayloadCrypto.StoredKeyDecrypts | packages/encryption-binary-rust/src/crypto.rs:68-229 | what is encrypted with the stored public key decrypts with the key loaded after any further run that keeps it, across changes of tier |
| Sessions.SessionManager.IsSessionWarm | packages/encryption-binary-rust/src/daemon.rs:54-60 | warm means marked less than the timeout ago, under the key of the terminal or the common one |
| Sessions.SessionManager.MarkSessionWarm | packages/encryption-binary-rust/src/daemon.rs:62-65 | one session gets the present time, and what any other terminal is asked stays |
| Sessions.SessionManager.InvalidateAll | packages/encryption-binary-rust/src/daemon.rs:67-69 | no session is left |
| Sessions.SessionManager.NeedsBiometric | packages/encryption-binary-rust/src/daemon.rs:81-83 | presence is asked for exactly when it can be and this terminal was not marked in the last five minutes |
| Sessions.SessionManager.ExpiryTick | packages/encryption-binary-rust/src/daemon.rs:158-168 | exactly the sessions of five minutes go, and half an hour of idling stops the daemon |
| Sessions.PruningIsInvisible | packages/encryption-binary-rust/src/daemon.rs:160-162 | no check at any later time can tell that sessions were pruned |
| Sessions.RunExplained | packages/encryption-binary-rust/src/daemon.rs:225-287 | in every interleaving each session in the map goes back to a mark with no invalidation since, and each cleared request to a warm check or verified presence |
| Sessions.PlaintextHasProvenance | packages/encryption-binary-rust/src/daemon.rs:225-287 | every plaintext traces back through decrypts of its session key, each checked within the timeout of the one before, to verified presence; all from that presence on after any point where the key was cold |
| Sessions.TerminalsHaveKeys | packages/encryption-binary-rust/src/daemon.rs:54-65 | two terminals share a session key only if they are the same, or one has no name and the other the name given to that case |
| Sessions.PlaintextIsOfTerminal | packages/encryption-binary-rust/src/daemon.rs:225-287 | every decrypt in the chain of a plaintext was checked, and its presence verified, for the terminal that gets it |
| Sessions.NewTerminalIsAsked | packages/encryption-binary-rust/src/daemon.rs:225-287 | in every run a terminal that was never marked needs presence |
| Sessions.SessionEndsWhenCold | packages/encryption-binary-rust/src/daemon.rs:225-287 | at any point of any run, no plaintext of a session key can follow without presence verified first exactly when it is cold: its session is not warm and every decrypt of it in flight still has its presence check before it |
| Sessions.InvalidationEndsSession | packages/encryption-binary-rust/src/daemon.rs:356-361 | an invalidation ends a session exactly when every decrypt of it in flight still has its presence check before it, and all sessions exactly when every decrypt in flight has |
| Sessions.InFlightDecryptSurvivesInvalidation | packages/encryption-binary-rust/src/daemon.rs:356-361 | a run in which a decrypt past its presence check keeps the session over the invalidation |
| Sessions.Daemon.CheckSession | packages/encryption-binary-rust/src/daemon.rs:245-246 | the check of a decrypt on the manager is the check of the interleaving model, or clears the request where there are no biometrics, and says whether presence is needed |
| Sessions.Daemon.VerifyPresence | packages/encryption-binary-rust/src/daemon.rs:248-254 | verified presence lets the request go on, anything else ends it |
| Sessions.Daemon.DecryptPayload | packages/encryption-binary-rust/src/daemon.rs:257-286 | a failed load or decrypt ends the request |
| Sessions.Daemon.MarkAndReturn | packages/encryption-binary-rust/src/daemon.rs:271-277 | marking on the manager is the mark of the interleaving model |
| Sessions.Daemon.HandleInvalidate | packages/encryption-binary-rust/src/daemon.rs:356-361 | invalidating on the manager is the invalidation of the interleaving model |
| Sessions.Daemon.ExpiryRound | packages/encryption-binary-rust/src/daemon.rs:153-168 | a round of the expiry thread is the pruning of the interleaving model |
| Sessions.Daemon.HandleDecrypt | packages/encryption-binary-rust/src/daemon.rs:225-287 | with nobody in between, a plaintext needs a warm session or presence where there are biometrics, warms the session, and changes nothing for other terminals |
| Framing.FrameRoundTrip | packages/encryption-binary-rust/src/ipc.rs:465-481 | a framed message is read back exactly when its length is between 1 and 10,000,000 |
| Framing.FramesRoundTrip | packages/encryption-binary-rust/src/ipc.rs:417-463 | every list of such messages is read back as that list, whatever follows on the stream |
| Framing.ReadWasFramed | packages/encryption-binary-rust/src/ipc.rs:417-440 | whatever is read from any stream was framed on it, and reading stops only where no whole legal frame follows |
| Framing.Connection.ReadExact | packages/encryption-binary-rust/src/ipc.rs:968-984 | the body loop fills the buffer with the next bytes for every chunking, or finds the stream over |
| Framing.Connection.SendResponse | packages/encryption-binary-rust/src/ipc.rs:465-481 | one frame is appended to what was sent |
| Framing.Connection.ReadMessage | packages/encryption-binary-rust/src/ipc.rs:418-437 | the next message of the stream, or none when no whole legal frame follows |
| Framing.Connection.HandleClient | packages/encryption-binary-rust/src/ipc.rs:406-463 | one framed answer to each message in order, and invalid JSON does not put the stream out of step |
| Framing.EveryMessageIsAnswered | packages/encryption-binary-rust/src/ipc.rs:406-481 | a client that frames messages reads back exactly one answer to each, at its position |
| Calendar.NextYear | packages/encryption-binary-rust/src/key_store/mod.rs:593-595 | the closed count of leap days agrees with the leap year rule |
| Calendar.DayNumberOrdersDates | packages/encryption-binary-rust/src/key_store/mod.rs:566-590 | day numbers order dates as year, month and day do, so no two dates share one |
| Calendar.NowIso8601 | packages/encryption-binary-rust/src/key_store/mod.rs:551-591 | for every second count the loops end with the valid Gregorian date and time that many seconds after the epoch |
| Calendar.TextsSortAsTimes | packages/encryption-binary-rust/src/key_store/mod.rs:590 | through 9999 texts sort exactly as times |
| Calendar.SortEndsAt9999 | packages/encryption-binary-rust/src/key_store/mod.rs:590 | 9999 is the last year for which they do |
| ReleaseClosure.UniqueKeepsOrder | scripts/check-release-packages.ts:77 | the set made of the branch packages keeps the order in which they first appear |
| ReleaseClosure.Sweep | scripts/check-release-packages.ts:88-93 | a pass adds only forced packages, and one that adds nothing leaves a closed set |
| ReleaseClosure.WithDependents | scripts/check-release-packages.ts:77-94 | the sweeps compute the least set with the branch packages that is closed under releasable dependents |
| ReleaseClosure.WithDependencies | scripts/check-release-packages.ts:98-108 | the worklist ends, duplicates and cycles included, with the least superset closed under releasable dependencies |
| ReleaseClosure.StepProgresses | scripts/check-release-packages.ts:99-107 | each round adds a package, shortens the queue or puts a new package on top |
| ReleaseClosure.ReleasePackages | scripts/check-release-packages.ts:77-110 | the second closure is built on the first |
| ReleaseClosure.ClosureIsReachable | scripts/check-release-packages.ts:77-108 | a least closed set is exactly what paths from its base reach |
| ReleaseClosure.PublishedIsReachable | scripts/check-release-packages.ts:77-110 | a package is published exactly if going up to dependents and then down to dependencies reaches it from the branch |
| ArgSplitter.SplitCommaSeparatedArgs | packages/vscode-plugin/src/diagnostics-core.ts:89-133 | the loop returns the trimmed non-empty pieces between top-level commas |
| ArgSplitter.PiecesJoinBack | packages/vscode-plugin/src/diagnostics-core.ts:95-128 | the pieces joined by commas are the input |
| ArgSplitter.PiecesAreBalanced | packages/vscode-plugin/src/diagnostics-core.ts:95-128 | every piece but the last starts and ends outside quotes and brackets, unbalanced input included |
| ArgSplitter.SplitJoinSplit | packages/vscode-plugin/src/diagnostics-core.ts:89-133 | splitting the joined parts again gives the same parts, for every input |

## Left out

- EnvSpecReading.ExpandedLeafReads: only for `Settled` strings, and one direction; `EnvSpecExact.ExpandedLeafExactly` has both where the commands are not coerced, and the pieces have them always (`EnvSpecDiverging.PassesAgree`).
- EnvSpecReading.PassesReadOnce: the same; a quoted string that is not `Settled` has its slices unescaped more than once, and `EnvSpecWorn.QuotedFallsShort` says exactly when that shows.
- EnvSpecTrees.TreeReadsOnce: quoted strings in the tree are `Settled`, for that reason.
- EnvSpecTrees.ExpandedTreeReads: `Settled` strings and one direction only; a string that is cut may stand where its value does not matter.
- EnvSpecTrees.ExpandedFileReads: the same.
- EnvSpecPlain.ExpandedLeafIsPlain: `Settled` strings only; without commands `EnvSpecWorn.ExpandedQuotedExactly` has every quoted string.
- EnvSpecPlain.ExpandedLeafThrows: `Settled` strings only.
- EnvSpecExact.CutChangesValue: `Settled` strings, and commands that are not coerced in the passes or in the reading: where both refuse one, both fail.
- EnvSpecExact.ReferencesReadOnce: `Settled` strings only.
- EnvSpecExact.ExpandedLeafExactly: `Settled` strings and commands as for `CutChangesValue`.
- EnvSpecWorn.ExpandedQuotedExactly: without commands; what a command makes of a text with fewer backslashes is unknown.
- The env-spec grammar and the updater that builds nodes through it: grammar.js is not part of this model.
- JavaScript strings are sequences of characters, not UTF-16 units; the two reference patterns are functions that match what the regular expressions match.
- How a number prints back is a parameter (`exact`), and names such as `__proto__` on plain objects are not modelled.
- `simplifiedArgs` beyond what `ref` reads from it, and the `RegExp` objects it can build.
- Idempotence of `expand`: commands nested in a command are left to the shell.
- The election and the decrypt requests are state machines over steps, not threads sharing objects; mutex poisoning and files removed by other programs are left out.
- The PID file's later removal, beyond that a loser never writes it.
- Windows: pipes, named mutex, DPAPI, NCrypt, Hello and scheduled tasks, except the body-read loop.
- `createdAt` in key records, directory permissions, biometric prompts through polkit, and zeroing of buffers.
- A handler whose reply cannot be written, a client timeout, and the running flag turning false during a connection.
- The order in which packages are listed, and reading package files; `getWorkspaceDeps` is a function.
- Framework integrations, editor providers, CI tables, release and build steps: they only call the parts modelled here, or have no rule of their own.
