# Release and harness tooling, verified

A Dafny model of the algorithms in this repository's release, gate and harness scripts,
with proofs of what they are for. `dafny verify dfyconfig.toml` checks all of it.

Code that works step by step is modelled step by step: a class over the source's own
variables, an array filled in place, a loop with the source's order of work. Each such
method is proved against a function, and the theorems are about that function.

- **Headless archive** (`Octal`, `Ustar`, `HeadlessArchive`, `HeadlessArchiveProperties`):
  the ustar writer, byte by byte, and a reader written from the "ustar Interchange
  Format" section of the `pax` utility in IEEE Std 1003.1-2017. Reading undoes writing,
  with the exact condition on paths and sizes; the bytes depend on the files alone.
- **Dependency flattening** (`RuntimeStaging`, `RuntimeStagingProperties`,
  `RuntimeStagingReach`, `RuntimeFlattening`): the recursive walk over a possibly cyclic
  package graph into one flat folder. It ends on every graph whose manifests carry a
  version, and it keeps what every package resolves under an exact condition.
- **Wiring gate** (`ModuleWiring`): the island rules accept an exemption list exactly when
  it is a fixed point of a monotone operator; repairing the list by adding what is
  reported finds the least one.
- **Stylesheet and attribute readers** (`StylesheetText`, `StylesheetReader`,
  `StylesheetProperties`, `StylesheetDeclarations`, `StylesheetExemptions`,
  `StylesheetComments`, `StylesheetSpills`, `AttributeReader`): two character-level scanners
  that undo printing. A stylesheet with its comments reads as its declarations, with their
  lines and header paths; which of them a marker exempts is stated exactly.
- **Frame recorder** (`FrameCompositor`): row-wise copies of damage rectangles into one
  buffer, against "the last writer of each point".
- **Window protocol** (`HarnessWire`, `HarnessServer`, `HarnessClient`, `HarnessSystem`):
  server and client as classes, each handler one step of a state machine, and the whole
  system over ordered channels with arbitrary other programs connected. Answers and
  exchanges belong together in every interleaving, and an exchange that is served completes.
- **Decision archive** (`FencedBlocks`, `DecisionArchive`, `DecisionArchiveProperties`,
  `DecisionArchiveReports`): the gate's local rules report exactly the faults there are,
  and are silent exactly on an archive that is consistent as a whole.
  Fences follow section 4.5 of CommonMark 0.31.2, except that a closing line may carry
  more text and be indented, as in the script.
- **CONNECT handshake** (`ConnectHandshake`): the incremental reader of a request head
  (section 9.3.6 of RFC 9110), independent of chunking up to its limit.
- **Signing** (`SigningOrder`, `BundleSigning`): the order of signatures and the seals
  they leave, on a bundle that may come with signatures of its own.
- **Nightly icons** (`IconInversion`): colour inversion in place with a row stride, and
  the check of its result.

Four things the proofs show that the scripts' comments do not say:

- A 101-byte path that begins with a separator is split there and read back without it
  (`Ustar.JoinedPathIsThePath`), and a size of 8^11 or more fills its field so that no
  reader takes it (`Octal.OctalFieldReads`). Neither occurs while the archive prefix is a
  plain folder name and files are below 8 GiB.
- Flattening keeps what every staged package requires exactly when no failure is caught
  after something was recorded for it (`RuntimeFlattening.FlatteningPreservesResolution`).
  An optional dependency that fails later stays recorded and copied
  (`RuntimeFlattening.CaughtFailureLeavesABrokenPackage`). A failing ordinary dependency
  named like a member of every object, `constructor` for one, is caught too
  (`RuntimeFlattening.ObjectNamedDependencyIsPassedOver`); where no dependency has such a
  name, nothing else is lost (`RuntimeFlattening.PlainDependenciesAreServed`).
- A second exception marker before one block waits in the queue and exempts a later block
  (`StylesheetSpills.SecondMarkerSpills`). A declaration is exempt exactly when a rule
  around it takes a marker, which `StylesheetExemptions.TakenExactly` counts out; that is
  what the comment says exactly when no declaration owes it to a marker left over alone
  (`StylesheetExemptions.ExemptWhenFirstAfterMarker`).
- The limit of the handshake counts the whole buffer, not the head, so it depends on the
  chunks exactly when an accepted head within the limit is followed by data beyond it
  (`ConnectHandshake.CuttingsEndAlikeExactly`).

## Model

| member | source | states |
|---|---|---|
| `Octal.OctalFieldReads` | scripts/package-headless.ts:203-205 | An octal field read back gives its number exactly when the number is below 8^(length-1); a larger one fills the field, leaves no terminator and is refused |
| `Octal.OctalFieldBytes` | scripts/package-headless.ts:203-205 | The field is the digits with zeros before them and one NUL behind, byte by byte |
| `Octal.ValueOfToOctal` | scripts/package-headless.ts:203-205 | The octal digits of a number name that number |
| `Octal.DigitCount` | scripts/package-headless.ts:203-205 | A number takes at most n octal digits exactly when it is below 8^n |
| `HeadlessArchive.Write` | scripts/package-headless.ts:170-183 | `Buffer.write` in place: at most `length` bytes are copied in and no other byte changes |
| `HeadlessArchive.WriteOctal` | scripts/package-headless.ts:203-205 | The field in the buffer becomes the padded octal text, cut to the field; no other byte changes |
| `HeadlessArchive.SplitUstarPath` | scripts/package-headless.ts:193-201 | The index loop over separators finds the first one that leaves a prefix of at most 155 and a name of at most 100 bytes, or throws when there is none |
| `HeadlessArchive.TarHeader` | scripts/package-headless.ts:167-185 | The block filled in place, checksum loop included, is the header value that `HeaderRoundTrip` reads back; it throws exactly when the path cannot be split |
| `Ustar.ChecksumFieldReads` | scripts/package-headless.ts:181-183 | For every header the six digits hold the whole checksum, and reading them gives the sum of the block with the field blank |
| `Ustar.ChecksumFieldBytes` | scripts/package-headless.ts:181-183 | The checksum field is six octal digits, a NUL and a space |
| `Ustar.SumAdds` | scripts/package-headless.ts:179-181 | The checksum counts every byte once |
| `Ustar.EmptyBytesAreZero` | scripts/package-headless.ts:168-185 | Every byte of a header that no field writes is zero |
| `Ustar.JoinedPathIsThePath` | scripts/package-headless.ts:193-201 | Joining what is read of prefix and name gives the path back exactly when the path has no NUL and is not a 101-byte path that starts with a separator |
| `Ustar.HeaderRoundTrip` | scripts/package-headless.ts:167-185 | A reader of the ustar interchange format recovers path, mode and size from the header exactly when the path is readable and the size below 8^11 |
| `HeadlessArchive.PushFile` | scripts/package-headless.ts:154-161 | One turn of the loop appends header, contents and the fill to a 512-byte boundary, or throws for the path |
| `HeadlessArchive.CreateDeterministicTarball` | scripts/package-headless.ts:146-165 | The loop over sorted files builds the archive that `TarballReadsBack` reads back file by file, or throws with the first path that cannot be split |
| `HeadlessArchiveProperties.ArchiveRoundTrip` | scripts/package-headless.ts:146-205 | Reading the archive gives the list of entries back, in order and with nothing after the two zero blocks, exactly when every path is readable and every size below 8^11 |
| `HeadlessArchiveProperties.TarballReadsBack` | scripts/package-headless.ts:146-165 | For every tree and listing order, when no path is too long the entries read are, once each, under prefix and path, the files of the tree with their own bytes and mode 493 or 420 by their execute bits, nothing else, and in the order of `less` |
| `HeadlessArchiveProperties.ArchiveRefusal` | scripts/package-headless.ts:193-201 | The build throws exactly when some path exceeds 100 bytes and no separator leaves both halves within their fields, and it names the first such path |
| `HeadlessArchiveProperties.TarballIsDeterministic` | scripts/package-headless.ts:141-165 | Two trees with the same paths, contents and execute bits give the same bytes, in whatever order their directories were listed |
| `HeadlessArchive.ArchivedMode` | scripts/package-headless.ts:157 | 0o755 exactly when one of the three execute bits is set, 0o644 otherwise |
| `Sorting.SortOrders` | scripts/package-headless.ts:151 | The sorted listing has no later element that goes before an earlier one |
| `Sorting.SortIgnoresListingOrder` | scripts/package-headless.ts:151 | Two listings of the same elements sort to the same list |
| `RuntimeStaging.Stager.StageExternalPackage` | scripts/package-desktop.ts:1874-1921 | The recursive walk over the shared map ends in the state and with the failure of the walk function, for every graph whose manifests carry a version, cyclic ones included; it ends because each recorded name leaves fewer to record |
| `RuntimeStaging.Stager.StageEach` | scripts/package-desktop.ts:1908-1920 | The loop over dependency names stops at the first failure that is not caught |
| `RuntimeStaging.Stager.StageOptional` | scripts/package-desktop.ts:1909-1919 | A failure is caught exactly for a name that JavaScript's `in` finds on the optional dependencies, inherited object members included; what was recorded stays |
| `RuntimeStaging.Stager.StageRuntimePackages` | scripts/package-desktop.ts:1856-1872 | The requested packages are staged in turn into one shared map, up to the first failure |
| `RuntimeStaging.Stage` | scripts/package-desktop.ts:1874-1921 | Nothing recorded before a call is lost or changed by it, and only recorded names are copied or finished |
| `RuntimeStaging.DependencyNames` | scripts/package-desktop.ts:1904-1907 | The names visited are the ordinary and the optional dependencies, each as often as it is declared, in code-unit order |
| `RuntimeStaging.CodeUnitLessIsUtf16Order` | scripts/package-desktop.ts:1907 | That order on texts is the order of their UTF-16 code units, characters past U+FFFF included |
| `RuntimeStaging.UnitsLessComesFirst` | scripts/package-desktop.ts:1907 | In that order the one that is a beginning of the other comes first, or the one that is smaller where they first differ |
| `RuntimeStaging.LeftOutByPrefix` | scripts/package-desktop.ts:1923-1930 | The packages left out are exactly those whose names go on behind one of the two prefixes |
| `RuntimeStagingProperties.FailuresAreSo` | scripts/package-desktop.ts:1881-1903 | Whatever a call throws is so: a name that somebody's lookup does not find, a recorded name of which another version exists, or a directory that cannot be copied |
| `RuntimeStagingProperties.RequestsRunInTurn` | scripts/package-desktop.ts:1863-1871 | Requests are staged from left to right, and nothing after the first failure |
| `RuntimeStagingProperties.DependenciesRunInTurn` | scripts/package-desktop.ts:1908-1920 | So are the dependencies of one package, but for the failures that are caught |
| `RuntimeStagingProperties.StageCloses` | scripts/package-desktop.ts:1874-1921 | A call that returns has put what its requester resolves into the map at that version; a call that throws leaves every finished package with each declared dependency served, or passed over by a catch and refused |
| `RuntimeStagingProperties.StageLeaves` | scripts/package-desktop.ts:1888-1921 | A call leaves a recorded package unfinished exactly when it throws past the recording or a caught failure came after one |
| `RuntimeFlattening.FlatteningPreservesResolution` | scripts/package-desktop.ts:1856-1921 | For every graph and every run that returns: no failure was caught after a recording exactly when every recorded package is staged and served each dependency whose failure is not caught, at the version it resolves by itself; then an ordinary dependency goes unserved exactly where the catch passed it over by its name |
| `RuntimeFlattening.PlainDependenciesAreServed` | scripts/package-desktop.ts:1856-1921 | When no dependency is named like a member of every object, the run keeps what every staged package resolves of all its ordinary dependencies exactly when no failure was caught after a recording |
| `RuntimeFlattening.FlatLookupPreserves` | scripts/package-desktop.ts:1856-1930 | The same of what Node finds in the flat folder, for packages that go by their own names |
| `RuntimeFlattening.StageBreaks` | scripts/package-desktop.ts:1874-1921 | A call that throws has recorded nothing or leaves a recorded package uncopied or a staged one without what it requires, and a failure caught after a recording leaves the same |
| `RuntimeFlattening.CaughtFailureLeavesABrokenPackage` | scripts/package-desktop.ts:1916-1919 | A concrete graph where the run returns and an optional package stays in the flat tree without what it requires |
| `RuntimeFlattening.ObjectNamedDependencyIsPassedOver` | scripts/package-desktop.ts:1916-1919 | A concrete graph where the run returns, nothing is caught late, and a package is staged without its ordinary dependency `constructor` |
| `RuntimeStagingReach.StagesExactlyTheReachable` | scripts/package-desktop.ts:1874-1930 | When only dependencies whose failure is caught may be missing, everything reachable can be copied and no two packages of one name differ, the run returns and the staged packages are exactly those reachable through the dependencies that are installed and not left out |
| `RuntimeStagingReach.StageReaches` | scripts/package-desktop.ts:1874-1921 | Over such a set of packages a call for one of them never fails, stages only packages of the set, and leaves what it recorded served with every installed dependency |
| `ModuleWiring.ExtractRuntimeSpecifiers` | scripts/check-module-wiring.ts:270-288 | The counting loop removes as many occurrences of a specifier as statements of it are erased |
| `ModuleWiring.WithoutCounts` | scripts/check-module-wiring.ts:262-288 | Occurrence for occurrence the result is the specifiers less the erased ones, so a specifier imported both ways stays a runtime reference |
| `ModuleWiring.CollectReferences` | scripts/check-module-wiring.ts:394-450 | The set built by the loop is exactly the paths some file refers to, where tests, their scaffolding and islands contribute nothing and HTML scripts and bundler entries count |
| `ModuleWiring.ReferencesAreExact` | scripts/check-module-wiring.ts:394-450 | A module is referenced exactly by a page's script tag, a counted file's bundler entry or a counted file's import: by path when it starts with a dot, else by the export map, and with erased occurrences taken off if only runtime edges count |
| `ModuleWiring.IslandIsExactly` | scripts/check-module-wiring.ts:452-594 | The three rules together: a candidate without any reference, or without a runtime one though it exports something at run time, or a package file whose exported names no other counted file imports |
| `ModuleWiring.FindUnreachableModules` | scripts/check-module-wiring.ts:452-467 | Reports exactly the candidates outside the exemptions that nothing counted refers to |
| `ModuleWiring.FindTypeOnlyReferencedModules` | scripts/check-module-wiring.ts:478-495 | Reports exactly the candidates with a runtime export, outside the exemptions, whose every reference is erased |
| `ModuleWiring.FindBarrelOnlyModules` | scripts/check-module-wiring.ts:547-594 | Reports exactly the package modules outside the exemptions whose exported names no counted file but themselves and barrels imports |
| `ModuleWiring.FindStaleIslandExemptions` | scripts/check-module-wiring.ts:606-638 | Reports exactly the exempted paths that the operator on the list does not give back |
| `ModuleWiring.IslandViolations` | scripts/check-module-wiring.ts:452-638 | Rules B, D, E and F together report nothing exactly when the exemption list is a fixed point of the island operator; otherwise exactly the difference of the two sets |
| `ModuleWiring.IslandsAreMonotone` | scripts/check-module-wiring.ts:394-594 | A longer exemption list never makes an island disappear from the union of the rules |
| `ModuleWiring.AddReportedIsLeast` | scripts/check-module-wiring.ts:452-638 | Adding every reported module until none is reported ends, and at the least clean list above its start |
| `ModuleWiring.LeastCleanList` | scripts/check-module-wiring.ts:452-638 | From no exemption at all the repair finds the least of all lists the rules accept |
| `ModuleWiring.TypeOnlyIsNotMonotone` | scripts/check-module-wiring.ts:478-495 | Rule E alone is not monotone: exempting the importer moves its module from rule E to rule B |
| `ModuleWiring.TypeOnlyStaysWhileReferenced` | scripts/check-module-wiring.ts:452-495 | As the list grows rule E keeps a module exactly while anything counted still refers to it, and otherwise rule B reports it |
| `ModuleWiring.CleanListsAreNotUnique` | scripts/check-module-wiring.ts:606-638 | Two candidates that import only each other pass both with neither and with both exempted |
| `StylesheetText.LineAt` | scripts/check-ui-stylesheets.ts:275-279 | The counting loop gives one more than the newlines before the offset |
| `StylesheetText.StripIsPointwise` | scripts/check-ui-stylesheets.ts:265-273 | Blanking keeps the length and every newline, turns the rest of each comment to spaces, and touches nothing outside comments |
| `StylesheetText.StripKeepsLines` | scripts/check-ui-stylesheets.ts:265-273 | Every offset has the same number of newlines before it after blanking as in the source |
| `StylesheetText.MarkersIncrease` | scripts/check-ui-stylesheets.ts:266-271 | The markers are strictly increasing offsets within the source |
| `StylesheetText.NormaliseUndoesSpacing` | scripts/check-ui-stylesheets.ts:315-318 | Collapsing white space and trimming gives a value back from any spacing of it: runs of white space for its single spaces, and around it |
| `StylesheetText.NewlinesAreCounted` | scripts/check-ui-stylesheets.ts:275-279 | What is counted is the number of line ends |
| `StylesheetComments.CommentEndIsFirstClose` | scripts/check-ui-stylesheets.ts:267-269 | A comment ends behind the first close at or after its body's start, whatever stands before it, and there is none when there is no close |
| `StylesheetComments.StripsItsComments` | scripts/check-ui-stylesheets.ts:265-273 | For every source of text and whole comments: each comment is blank, line ends apart, the text is kept, and the markers are the ends of the comments that match |
| `StylesheetComments.EverySourceIsWritten` | scripts/check-ui-stylesheets.ts:265-273 | Every source is one of text and whole comments, so the theorem covers every input |
| `StylesheetComments.ReadsCommentedSheet` | scripts/check-ui-stylesheets.ts:265-329 | A stylesheet of declarations with comments anywhere between and inside its parts reads as those declarations |
| `StylesheetReader.ReadDeclarations` | scripts/check-ui-stylesheets.ts:286-329 | The one-pass loop with its two stacks and its marker queue returns the declarations of the stack machine `ReadUndoesPrint` speaks of |
| `StylesheetReader.DeclarationOf` | scripts/check-ui-stylesheets.ts:307-324 | A segment that ends in `;` declares something only inside a block and under a property name, on the line its first visible character is on |
| `StylesheetProperties.ReadUndoesPrint` | scripts/check-ui-stylesheets.ts:286-329 | Reading the text of any tree of nested blocks finds every statement once, in order, with the full header path around it and the exemption its enclosing blocks took |
| `StylesheetProperties.SegmentReads` | scripts/check-ui-stylesheets.ts:308-319 | A segment of a property, a colon and a value, spaced at will around and inside, reads as exactly that pair with single spaces |
| `StylesheetProperties.PropertyNames` | scripts/check-ui-stylesheets.ts:312 | A property name is a letter and then letters, digits, underscores and hyphens, behind two hyphens or none |
| `StylesheetProperties.PassesStrayClose` | scripts/check-ui-stylesheets.ts:302-305 | A closing brace outside every block starts a new segment and changes nothing else |
| `StylesheetProperties.PrintedDeclarationReads` | scripts/check-ui-stylesheets.ts:308-323 | A printed declaration reads as itself, on the line its property starts on |
| `StylesheetDeclarations.ReadsItsDeclarations` | scripts/check-ui-stylesheets.ts:265-329 | For every source that is, its comments blanked, a stylesheet of declarations in nested rules, spaced at will, the result is its declarations, once each and in order, with property, value, line in the source, trimmed header path and exemption |
| `StylesheetExemptions.TakenExactly` | scripts/check-ui-stylesheets.ts:294-301 | For increasing openings and markers, a block takes a marker exactly when, from some block up to it, more markers came than blocks opened before it |
| `StylesheetExemptions.TakesAreFirstsExactly` | scripts/check-ui-stylesheets.ts:294-301 | The blocks that take a marker are just the first ones after a marker if and only if no other block has two markers behind it between which no block opens |
| `StylesheetExemptions.ExemptExactly` | scripts/check-ui-stylesheets.ts:265-329 | For every stylesheet, declaration by declaration: what is read is the stylesheet's declaration, exempt exactly when a rule around it takes a marker in that sense |
| `StylesheetExemptions.ExemptWhenFirstAfterMarker` | scripts/check-ui-stylesheets.ts:265-329 | For every stylesheet: the declarations read are those exempt exactly when a rule around them is the first to open after a marker, if and only if no declaration lies in a rule that takes a marker without lying in such a first one |
| `StylesheetSpills.SecondMarkerSpills` | scripts/check-ui-stylesheets.ts:265-301 | For any marker comment written twice before `a{}b{c:d;}` the declaration in the second rule is read as exempt, though only the first rule is the first after a marker |
| `StylesheetSpills.MarkerIsAComment` | scripts/check-ui-stylesheets.ts:46 | A fixed-scheme exception marker is one whole comment, so such a source exists |
| `AttributeReader.ReadAttributes` | scripts/check-ui-stylesheets.ts:155-186 | The scanning loop returns the text up to where the delimiter stack machine stops |
| `AttributeReader.ReadsExactlyTheText` | scripts/check-ui-stylesheets.ts:150-186 | For every attribute text of plain characters, quoted strings, bracket groups, nested tags and operators, followed by a `>` away from `=`, exactly the text is returned |
| `AttributeReader.ReadsToTheEnd` | scripts/check-ui-stylesheets.ts:150-186 | Attribute text that is never closed is returned whole, to the end of the source |
| `AttributeReader.ReadsOverAStrayCloser` | scripts/check-ui-stylesheets.ts:172-176 | A closer with nothing open is passed over |
| `AttributeReader.GreaterThanInside` | scripts/check-ui-stylesheets.ts:159-184 | A `>` in a string in any of the three quotes, or directly inside brackets of any kind, does not end the attributes |
| `AttributeReader.GreaterThanElsewhere` | scripts/check-ui-stylesheets.ts:159-184 | A quote behind a backslash does not end its string, the `>` of an arrow or of `>=` ends nothing, and a tag inside is closed by its own |
| `AttributeReader.ScanOver` | scripts/check-ui-stylesheets.ts:159-184 | Scanning such a text, however deep it nests, ends behind it with the stack it started with |
| `FrameCompositor.Recorder.Send` | scripts/canvas-prototype-containment-electron.ts:131-147 | A frame event throws exactly when some row does not fit the buffer; after any sequence of in-bounds events none throws and the buffer holds at every point the byte of the last event that covered it since the size last changed, and zero where none did |
| `FrameCompositor.ColourIsTheLastWriters` | scripts/canvas-prototype-containment-electron.ts:131-147 | That byte is, row by row and four bytes a pixel, the one the last event to cover the point has for it, and zero when there is none since the size last changed |
| `FrameCompositor.RowFitsExactly` | scripts/canvas-prototype-containment-electron.ts:142-146 | A row fits when what the event has of its bytes, perhaps fewer than the row, ends within the buffer |
| `FrameCompositor.Round` | scripts/canvas-prototype-containment-electron.ts:154-155 | The nearest integer, halves upward |
| `FrameCompositor.Recorder.CopyRow` | scripts/canvas-prototype-containment-electron.ts:141-147 | One row copied changes the points of that row of the rectangle and no others |
| `FrameCompositor.Set` | scripts/canvas-prototype-containment-electron.ts:143-146 | `Uint8Array.set` in place: the stretch becomes the source and every other byte stays |
| `FrameCompositor.StretchHolds` | scripts/canvas-prototype-containment-electron.ts:142-146 | A byte of the buffer lies in the copied stretch exactly when its row and column lie in the copied row |
| `FrameCompositor.Recorder.ColourAt` | scripts/canvas-prototype-containment-electron.ts:154-157 | The colour read at any point is what `subarray` cuts out there; at a point of the page, the last writer's red, green and blue |
| `HarnessServer.WindowServer.OnConnection` | scripts/nightly-client-harness-stable.ts:206-210 | A connection is entered with its peer, and nothing else changes |
| `HarnessServer.WindowServer.OnLine` | scripts/nightly-client-harness-stable.ts:212-233 | A line with a numeric id takes the next request number, is pending under it and is told to the listener if there is one; any other line changes nothing |
| `HarnessServer.WindowServer.OnClose` | scripts/nightly-client-harness-stable.ts:235-240 | A close removes the connection and its peer and tells the listener; pending requests stay |
| `HarnessServer.WindowServer.ReplyWindow` | scripts/nightly-client-harness-stable.ts:250-256 | True exactly when the request is pending and its connection stands; then one line is written there; the request is no longer pending either way |
| `HarnessServer.WindowServer.StopWindows` | scripts/nightly-client-harness-stable.ts:257-262 | The loop leaves every open connection destroyed, no listener and no further connections |
| `HarnessServer.EveryRunCorrelates` | scripts/nightly-client-harness-stable.ts:200-263 | In every run, whatever ids peers choose: a line reaches only the connection that asked and bears that request's own id, no request number is answered twice, and the pending map is exactly the requests asked and not yet answered |
| `HarnessServer.RepliesAreDeliveredExactly` | scripts/nightly-client-harness-stable.ts:250-256 | After every run a reply is delivered exactly when its number was given out, was not answered before and its connection stands: then one line with the request's own id and the reply stands behind the others on that connection, and nowhere else; otherwise nothing is written |
| `HarnessServer.StepAdmits` | scripts/nightly-client-harness-stable.ts:206-263 | Exactly which connections each step lets in, drops and cuts off, and whether more are accepted |
| `HarnessServer.StepSpends` | scripts/nightly-client-harness-stable.ts:206-256 | A number is spent by its first reply, and only a reply writes; a new connection's log is empty |
| `HarnessServer.StepTellsExactly` | scripts/nightly-client-harness-stable.ts:222-249 | Exactly what each step tells a listener: the request just read or the peer that just left, and nothing while nobody listens |
| `HarnessServer.EveryRunTells` | scripts/nightly-client-harness-stable.ts:222-240 | Every request told to the listener names the peer that made it and carries its ask, in request order, so each at most once |
| `HarnessServer.ListenerHearsAll` | scripts/nightly-client-harness-stable.ts:222-232 | While someone listens every request is told, with its peer and its ask |
| `HarnessServer.ExitIsToldOnce` | scripts/nightly-client-harness-stable.ts:235-240 | A close tells the listener the peer that left, and that connection never closes again |
| `HarnessServer.StoppedForGood` | scripts/nightly-client-harness-stable.ts:257-262 | After a stop no connection is let in and no reply delivered, whatever happens next, and without a new listener nothing is told |
| `HarnessServer.StopStops` | scripts/nightly-client-harness-stable.ts:257-262 | From every reachable state a stop leads to such a stopped state |
| `HarnessClient.WindowClient.BeginExchange` | scripts/nightly-client-harness-nightly.ts:148-160 | With a live socket the exchange waits under the next id and one line is sent; otherwise it is refused at once |
| `HarnessClient.WindowClient.OnLine` | scripts/nightly-client-harness-nightly.ts:139-143 | A line settles the exchange waiting under its id, if any, and that id waits no more |
| `HarnessClient.WindowClient.OnClose` | scripts/nightly-client-harness-nightly.ts:134-138 | The loop refuses exactly the waiting exchanges and leaves none waiting |
| `HarnessClient.EveryRunKeeps` | scripts/nightly-client-harness-nightly.ts:127-160 | In every run ids count the lines sent, each line says what its exchange asks, each exchange is settled at most once, and an id waits exactly while its exchange is unsettled |
| `HarnessClient.BeginningIsExact` | scripts/nightly-client-harness-nightly.ts:150-159 | In every run, while the socket stands a beginning exchange writes one line with the next id and its ask and then waits; otherwise it is refused at once and nothing is written |
| `HarnessClient.HearingIsExact` | scripts/nightly-client-harness-nightly.ts:139-143 | In every run, a line whose id is that of a line sent by an unsettled exchange settles exactly that exchange with exactly its reply; any other line changes nothing |
| `HarnessClient.OnlyALineAnswers` | scripts/nightly-client-harness-nightly.ts:139-158 | Only a line bearing the exchange's own id can settle it, except with the refusals the client makes up: at once, or when the socket closes |
| `HarnessClient.CloseFinishes` | scripts/nightly-client-harness-nightly.ts:134-138 | After a close every exchange ever begun has one answer: the one it had, or the refusal |
| `HarnessClient.ClosedForGood` | scripts/nightly-client-harness-nightly.ts:134-155 | Once closed, answers stay, lines that still arrive change nothing, and every later exchange is refused at once |
| `HarnessSystem.EveryRunIsSound` | scripts/nightly-client-harness-stable.ts:200-263 | Server, clients and strangers together, over lines delivered in order and cut off at any time: every request comes from one line of its connection, no line makes two, every answer the client did not make up is the broker's, and every reply read is its exchange's answer |
| `HarnessSystem.AnswersAreTheBrokers` | scripts/nightly-client-harness-nightly.ts:127-160 | In every interleaving an answer that the client did not make up for want of a socket is the broker's reply to the one request that very exchange made, and that request carried what the exchange asks |
| `HarnessSystem.RepliesReachTheirExchanges` | scripts/nightly-client-harness-nightly.ts:139-143 | In every interleaving a reply that the client has read is the answer of the exchange whose request it answers, unless the close had refused that exchange |
| `HarnessSystem.ExchangeCompletes` | scripts/nightly-client-harness-nightly.ts:139-160 | From every sound state an exchange of a quiet client is one new request at the server, and once that is answered and the answer read the exchange has that answer and the client is quiet again |
| `HarnessSystem.ConnectingIsExact` | scripts/nightly-client-harness-stable.ts:206-210 | While the server accepts, a new client is let in, and is quiet; after a stop nothing changes |
| `HarnessSystem.ReadingAsks` | scripts/nightly-client-harness-stable.ts:211-233 | What the server reads of a connection is its next line, and a request among them is asked as it was said |
| `HarnessSystem.SettledAtMostOnce` | scripts/nightly-client-harness-nightly.ts:148-160 | In every interleaving an exchange is settled at most once |
| `HarnessSystem.OneRequestEach` | scripts/nightly-client-harness-nightly.ts:156-158 | No exchange makes two requests of the server |
| `FencedBlocks.LinesOutsideFences` | scripts/check-decisions.ts:203-226 | The loop keeps the lines that the reader `ReadsPlainLines` speaks of keeps |
| `FencedBlocks.MarkerIsExact` | scripts/check-decisions.ts:203-216 | A line has a fence of n marks exactly when it is white space, then n backquotes or n tildes, at least three, and then a rest that does not begin with that mark |
| `FencedBlocks.ClosesExactly` | scripts/check-decisions.ts:205-222 | A line closes a block exactly when it spells the block's own mark at least as often as the opener |
| `FencedBlocks.ReadsPlainLines` | scripts/check-decisions.ts:203-226 | For every document of plain lines and fenced blocks whose inner lines do not close their opener, exactly the plain lines are kept, in order, whatever shorter or other fences stand inside |
| `FencedBlocks.EveryTextIsADocument` | scripts/check-decisions.ts:203-226 | Every text is such a document, its last block perhaps unclosed, so the theorem covers every input |
| `DecisionArchive.FindNumberingGaps` | scripts/check-decisions.ts:145-162 | The loops report the numbers that `GapsAreExact` and `AbsentIsExact` describe |
| `DecisionArchive.FindIndexDisagreements` | scripts/check-decisions.ts:310-359 | The four loops, the map whose last row of a number wins and the deletions report what `IndexIsExact` describes |
| `DecisionArchiveProperties.AbsentIsExact` | scripts/check-decisions.ts:150-153 | The missing list is exactly the absent numbers up to the highest, ascending |
| `DecisionArchiveProperties.GapsAreExact` | scripts/check-decisions.ts:145-162 | No gap is reported exactly when every number up to the highest is there |
| `DecisionArchiveProperties.NumberingIsExact` | scripts/check-decisions.ts:145-189 | With no number twice, rules F and H are silent exactly when the numbers are 1 to the count of records, each once, and the count at most 164 |
| `DecisionArchiveProperties.MalformedIsExact` | scripts/check-decisions.ts:253-307 | Rules A, B and C are silent exactly when every heading agrees with its file, every section is there, and each record has one status, known, with a superseder that exists and is later |
| `DecisionArchiveProperties.IndexIsExact` | scripts/check-decisions.ts:310-359 | Rule D is silent exactly when no number is indexed or recorded twice and records and rows pair off, agreeing on target, title and status |
| `DecisionArchiveProperties.GateIsExact` | scripts/check-decisions.ts:145-359 | The rules together are silent exactly on a consistent archive: numbered 1 to n, in bijection with an index that agrees, every record readable, every supersession forward |
| `DecisionArchiveReports.ReportsAreExact` | scripts/check-decisions.ts:145-359 | A violation is reported exactly when what it says is so of the records and the index: no fault is missed and none made up |
| `DecisionArchiveReports.GapReports` | scripts/check-decisions.ts:145-162 | A gap is reported exactly with the highest number and, ascending, the numbers of 1 to it that no record has, if there are any |
| `DecisionArchiveReports.MalformedReports` | scripts/check-decisions.ts:253-307 | Rules A, B and C report exactly each record's own faults: heading, status and its superseder, sections |
| `DecisionArchiveReports.ComparisonReports` | scripts/check-decisions.ts:328-352 | Rule D reports a record exactly when an earlier one has its number or no row has, or when the last row of its number has another target, title or status |
| `DecisionArchiveReports.RepeatReports` | scripts/check-decisions.ts:317-326 | A number is reported as indexed twice exactly when two rows have it |
| `DecisionArchiveProperties.RowsAndRecordsPairOff` | scripts/check-decisions.ts:310-359 | In a consistent archive there are as many rows as records, each row shows a record and each record is shown by one row |
| `DecisionArchiveProperties.SupersessionEnds` | scripts/check-decisions.ts:276-298 | From every record of a consistent archive the supersessions lead, by strictly increasing numbers, to a record that is not superseded |
| `ConnectHandshake.Connection.OnHandshake` | scripts/smoke-packaged-claude.ts:567-590 | A chunk leads to the state the handshake function gives, and a host is noted exactly when a tunnel is opened |
| `ConnectHandshake.Connection.OnUpstreamConnect` | scripts/smoke-packaged-claude.ts:595-599 | The remainder sent upstream is what was read past the head: head and remainder are all that was read |
| `ConnectHandshake.OutcomeIsExact` | scripts/smoke-packaged-claude.ts:562-607 | For every way of cutting a stream: dropped when more than 16,384 bytes are held at the end of the head, undecided with all bytes kept while there is no blank line, and otherwise the verdict on the whole stream with a prefix of it held |
| `ConnectHandshake.HeldExactly` | scripts/smoke-packaged-claude.ts:562-574 | What is held is all that came up to the first chunk that completes a head, or everything while none does |
| `ConnectHandshake.VerdictIsExact` | scripts/smoke-packaged-claude.ts:573-589 | Whatever the bytes: a head is let through, and to a name, exactly when its first line, read without top bits, asks for port 443 of a host that normalises to the name |
| `ConnectHandshake.ChunkingDoesNotMatter` | scripts/smoke-packaged-claude.ts:562-607 | Two cuttings of one stream, both within the limit at the blank line, accept or drop alike, with the same host |
| `ConnectHandshake.LimitDependsOnChunks` | scripts/smoke-packaged-claude.ts:568-572 | Past the limit the cutting decides: every accepted head followed by too much is let through alone and dropped in one chunk |
| `ConnectHandshake.CuttingsEndAlikeExactly` | scripts/smoke-packaged-claude.ts:562-607 | For every stream with a head: all its cuttings end alike exactly when the stream is within the limit, the head alone exceeds it, or the head is refused |
| `ConnectHandshake.HeadOfRequestLine` | scripts/smoke-packaged-claude.ts:573-589 | Every 7-bit request line for port 443 of a valid host makes, with the blank line, a head that is let through to that host |
| `ConnectHandshake.ExampleIsLetThrough` | scripts/smoke-packaged-claude.ts:573-589 | One such head within the limit, letter by letter |
| `ConnectHandshake.VerdictOfPrefix` | scripts/smoke-packaged-claude.ts:573-589 | What follows the blank line changes neither where the head ends nor the verdict |
| `ConnectHandshake.RequestLineIsExact` | scripts/smoke-packaged-claude.ts:576-579 | The line is matched exactly when it is CONNECT, a host without space or colon, a colon, digits and HTTP/1.0 or 1.1, and then with that one host and port |
| `ConnectHandshake.JudgementIsExact` | scripts/smoke-packaged-claude.ts:578-589 | A request line is let through, and for a name, exactly when it has that form with port 443 and a host that normalises to the name |
| `ConnectHandshake.PortIs443` | scripts/smoke-packaged-claude.ts:579 | The port is 443 exactly when its digits are zeros, if any, and then 4, 4 and 3 |
| `ConnectHandshake.NormalisedName` | scripts/smoke-packaged-claude.ts:630-636 | Of a padded host, with or without one closing dot, the lower-case name is converted: the result is that name when it has 1 to 253 of the allowed characters, and otherwise the host is refused |
| `ConnectHandshake.NameIsNormal` | scripts/smoke-packaged-claude.ts:630-636 | A name with and without its closing dot, in either case of its letters, is one name |
| `SigningOrder.FindMachOFiles` | scripts/sign-desktop.ts:88-110 | The files found are the Mach-O ones, sorted deepest first; none when the folder is absent |
| `SigningOrder.MachOPathsAreEntries` | scripts/sign-desktop.ts:97-104 | A path is found exactly when an entry of it is Mach-O, and once when it is listed once |
| `SigningOrder.MachOIsExact` | scripts/sign-desktop.ts:82-104 | A file is Mach-O exactly when its first four bytes are, in either byte order, one of three numbers |
| `SigningOrder.FoundToolsAreInsideOut` | scripts/sign-desktop.ts:88-110 | In whatever order the tools are listed, no tool found lies inside one signed before it: deeper ones come first, and equally deep ones in the order of the names |
| `SigningOrder.OrderIsInsideOut` | scripts/sign-desktop.ts:27-58 | In the published order, for every product name, no path lies inside an earlier one |
| `SigningOrder.RuntimeOrder` | scripts/sign-desktop.ts:302 | The part of the order that the worker runtime's loop keeps is exactly the frameworks part, in order |
| `SigningOrder.RuntimeTargetsAre` | scripts/sign-desktop.ts:300-312 | The worker runtime's targets are that part, inside the runtime, and then the runtime |
| `SigningOrder.OrderIsPackaged` | scripts/sign-desktop.ts:328-332 | No path of the order is refused as unexpected when it is looked up in the packaged app |
| `SigningOrder.PackagedExactly` | scripts/desktop-client-runtime.ts:108-121 | The desktop modules move to the unpacked folder, the server's files and whatever is outside the app tree stay, and everything else in the tree is refused |
| `SigningOrder.OnlyDesktopModulesMove` | scripts/sign-desktop.ts:328-332 | Of the order exactly the desktop modules are signed where they are unpacked |
| `SigningOrder.PackagedIsInsideOut` | scripts/sign-desktop.ts:328-332 | Moving the unpacked modules leaves nothing inside an earlier target |
| `SigningOrder.TargetsAreInsideOut` | scripts/sign-desktop.ts:297-343 | For any set of vendored tools, none of a release's targets lies inside an earlier one |
| `BundleSigning.Signing.SignAndNotarize` | scripts/sign-desktop.ts:288-365 | The commands run are a prefix of the release's plan up to the first that fails; it returns normally exactly when the submission was accepted and the whole plan was carried out, and then the archive holds the stapled bundle with every target's seal matching |
| `BundleSigning.Signing.SignVendored` | scripts/sign-desktop.ts:300-327 | The worker runtime is signed with entitlements, the tools and the language server without, in that order |
| `BundleSigning.TakenSealMatchesExactly` | scripts/sign-desktop.ts:274-287 | For any targets in any order and any bundle to start from: a seal taken matches at the end exactly when nothing inside its target was signed after its target was last signed |
| `BundleSigning.OldSealMatchesExactly` | scripts/sign-desktop.ts:46-49 | A signature the bundle came with, not newer than the bundle and not taken anew, matches at the end exactly when it matched and no target lies inside |
| `BundleSigning.InsideOutIsSealed` | scripts/sign-desktop.ts:274-287 | Signed inside out, whatever signatures the bundle came with, every target has its seal and the seal matches at the end |
| `BundleSigning.SealsHoldExactly` | scripts/sign-desktop.ts:274-287 | Every seal of the bundle matches at the end exactly when each target was signed again after whatever was signed inside it, which for distinct targets is the inside-out order, and every signature kept from before matched and has no target inside |
| `BundleSigning.ReleaseIsSealed` | scripts/sign-desktop.ts:274-365 | Whatever signatures the bundle came with: when the app is verified every target's seal matches, the app's own included, and all seals do exactly when the kept ones stood; the archive that ships holds that bundle, stapled, unchanged since its staple |
| `BundleSigning.FoundReleaseIsSealed` | scripts/sign-desktop.ts:288-365 | The same for the tools the walk of the tools folder finds, in whatever order it lists them |
| `BundleSigning.RefusedIsUnstapled` | scripts/sign-desktop.ts:352-362 | A submission that was not accepted leaves the bundle and its archive unstapled |
| `IconInversion.Invert` | scripts/generate-nightly-icons.swift:23-41 | The nested loops over the byte array, in place, give the inverse `PixelsInverted` describes, for every row stride of at least four bytes a pixel; another layout is refused |
| `IconInversion.PixelsInverted` | scripts/generate-nightly-icons.swift:25-29 | At every pixel alpha is kept and each colour becomes its complement to 255 |
| `IconInversion.OnlyColoursChange` | scripts/generate-nightly-icons.swift:25-29 | Every byte that changes is a colour of a pixel, so alpha and row padding stay |
| `IconInversion.TwiceIsNothing` | scripts/generate-nightly-icons.swift:23-41 | Inverting twice restores every byte, padding included |
| `IconInversion.VerifyPixels` | scripts/generate-nightly-icons.swift:63-84 | Accepts exactly when the sizes agree, both layouts are readable, every alpha is exact and every visible colour inverted, whatever the two strides; then returns width times height; a refusal over alpha or colour names what some pixel fails |
| `IconInversion.InverseIsFaithful` | scripts/generate-nightly-icons.swift:23-84 | Every image and its inverse are accepted |
| `IconInversion.FaithfulIsTheInverse` | scripts/generate-nightly-icons.swift:63-84 | What is accepted has the inverse's alpha everywhere and the inverse's four bytes at every visible pixel |
| `IconInversion.Verify` | scripts/generate-nightly-icons.swift:101-122 | Accepts exactly when type and count agree and each representation's first counterpart of its size and density passes; then returns the pixels checked |
| `IconInversion.KeysTellApart` | scripts/generate-nightly-icons.swift:56-61 | Representations are told apart exactly by width, height and the two densities |
| `IconInversion.AreaAdds` | scripts/generate-nightly-icons.swift:101-117 | The pixels counted are those of every image, each once |
| `IconInversion.GeneratedIsKept` | scripts/generate-nightly-icons.swift:86-122 | What the writer makes of images that differ in size or density passes the check |

## Left out

- gzip, hashing, image codecs and `domainToASCII`: libraries; the archive is taken before compression, and the name conversion is a parameter.
- `localeCompare`: a parameter, a strict total order where a result depends on it.
- Text encodings: archive paths are UTF-8 bytes, where the separator byte stands for the separator alone; other texts are sequences of Unicode characters, so an offset counts a character past U+FFFF once where a script counts two code units, and a lone surrogate does not occur.
- File system, process spawning, sockets and clocks: what a script reads is a parameter, and what it starts or waits for is not modelled.
- Node's package resolution: an arbitrary function from requester and name to a manifest or nothing; a manifest that cannot be read or parsed counts as nothing.
- `RuntimeStaging.Stager.StageExternalPackage`: assumes that every manifest carries a version; without one the script's map holds `undefined`, the package is staged again on each visit, and on a cycle without end.
- `RuntimeFlattening.FlatLookupPreserves`: assumes that a dependency is declared under its manifest's own name, because the flat folder is keyed by that name; `RuntimeFlattening.FlatteningPreservesResolution`, in terms of the version map, needs no such assumption.
- `RuntimeStaging.Stage`: a copy that fails half way leaves no directory in the model, while the script leaves a partial one; the failure is thrown either way.
- Regular-expression matching of imports, exports, headings, status lines and index rows: the modules start from the extracted statements, records and rows; fence markers, request lines, stylesheets and attributes are read character by character.
- `DecisionArchive.FindIndexDisagreements`: violations carry the record's number and the rule, not the wording of the message.
- The rules of the decision gate on misnamed files, the former folder and citations: plain filters over paths and lines.
- The other rules of the wiring and stylesheet gates, baseline ratchets and argument parsing: finite case splits without an invariant.
- `HarnessServer.WindowServer.OnLine`: ids are exact numbers, whole or fractional, or infinities; a line that is JSON null, for which the handler throws, is taken as one that changes nothing.
- The window protocol's clocks, the listener's own behaviour and numbers past 2^53: a listener that replies at once is a reply in the next step.
- `HarnessSystem.ExchangeCompletes`: says what an exchange ends in when server and client take their steps; that they ever take them is not stated.
- `ConnectHandshake.Connection.OnUpstreamConnect`: bytes that arrive after the decision and before the upstream connects belong to Node's stream and are not modelled, nor is the piping that follows.
- `BundleSigning.Signing.SignAndNotarize`: a signature is a new stamp of its target and a seal over the stamps inside it; certificates, entitlement files and the notary's answer format are not modelled.
- `FrameCompositor.Recorder.Send`: for frames outside the page or with too few pixels only whether it throws is stated, not what the rows copied until then leave in the buffer.
- `ModuleWiring.IslandViolations`: assumes that no path is scanned twice, as a directory listing gives it.
- `IconInversion.Verify`: decoding a representation may fail in the script; here every representation is decoded.
- Smoke, capture and seed scripts beyond the handshake and the window protocol: sequences of effects on other programs.
