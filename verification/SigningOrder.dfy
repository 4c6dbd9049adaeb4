/**
 The order in which scripts/sign-desktop.ts signs, checks, notarizes and archives
 the desktop app. Paths are lists of segments under the app; the app itself is [].
 */
module SigningOrder {
  import opened Prelude
  import Sorting

  /** A path segment: the directories that the order depends on, and any other name. */
  datatype Segment =
    | Contents | Frameworks | Resources
    | Native | ManagedTools | AppTree | AppUnpacked
    | Apps | Desktop | Server
    | ElectronFramework | Mantle | ReactiveObjC | Squirrel
    | RuntimeApp
    | Helper(product: string, kind: string)
    | Name(text: string)

  type Path = seq<Segment>

  /** `p` lies strictly inside `q`. */
  predicate Inside(p: Path, q: Path) {
    |q| < |p| && p[..|q|] == q
  }

  // ---------------------------------------------------------------- the targets

  function InFrameworks(segments: seq<Segment>): Path { [Contents, Frameworks] + segments }

  function InNative(name: string): Path { [Contents, Resources, Native, Name(name)] }

  function InServer(names: seq<string>): Path {
    [Contents, Resources, AppTree, Apps, Server, Name("node_modules")] + Names(names)
  }

  function InDesktop(name: string): Path {
    [Contents, Resources, AppTree, Apps, Desktop, Name("node_modules"), Name("@trycua"),
     Name("cua-driver-darwin-arm64"), Name(name)]
  }

  function Names(names: seq<string>): Path {
    seq(|names|, i requires 0 <= i < |names| => Name(names[i]))
  }

  const NATIVE_HELPERS: seq<Path> := [
    InNative("octant-keychain-helper"),
    InNative("octant-code-file-helper"),
    InNative("octant-device-helper"),
    InNative("octant-desktop-peer-status.node"),
    InNative("octant-browser-text-input.node")
  ]

  const DESKTOP_MODULES: seq<Path> := [
    InDesktop("libcua_driver_sdk.dylib"),
    InDesktop("cua_driver_node_runtime.node")
  ]

  const SERVER_MODULES: seq<Path> := [
    InServer(["better-sqlite3", "build", "Release", "better_sqlite3.node"]),
    InServer(["node-pty", "build", "Release", "pty.node"]),
    InServer(["node-pty", "build", "Release", "spawn-helper"])
  ]

  const ELECTRON: seq<Path> := [
    InFrameworks([ElectronFramework, Name("Versions"), Name("A"), Name("Libraries"), Name("libEGL.dylib")]),
    InFrameworks([ElectronFramework, Name("Versions"), Name("A"), Name("Libraries"), Name("libGLESv2.dylib")]),
    InFrameworks([ElectronFramework, Name("Versions"), Name("A"), Name("Libraries"), Name("libffmpeg.dylib")]),
    InFrameworks([ElectronFramework, Name("Versions"), Name("A"), Name("Libraries"), Name("libvk_swiftshader.dylib")]),
    InFrameworks([ElectronFramework, Name("Versions"), Name("A"), Name("Helpers"), Name("chrome_crashpad_handler")]),
    InFrameworks([ElectronFramework])
  ]

  const PLAIN_FRAMEWORKS: seq<Path> := [InFrameworks([Mantle]), InFrameworks([ReactiveObjC])]

  const SQUIRREL: seq<Path> := [
    InFrameworks([Squirrel, Name("Versions"), Name("A"), Name("Resources"), Name("ShipIt")]),
    InFrameworks([Squirrel])
  ]

  function HelperApps(product: string): seq<Path> {
    [InFrameworks([Helper(product, "")]), InFrameworks([Helper(product, "GPU")]),
     InFrameworks([Helper(product, "Plugin")]), InFrameworks([Helper(product, "Renderer")])]
  }

  /** The part of the order under Contents/Frameworks, for a product's helpers. */
  function FrameworkOrder(product: string): seq<Path> {
    ELECTRON + PLAIN_FRAMEWORKS + SQUIRREL + HelperApps(product)
  }

  function OrderFor(product: string): seq<Path> {
    NATIVE_HELPERS + DESKTOP_MODULES + SERVER_MODULES + FrameworkOrder(product)
  }

  const RUNTIME: Path := InFrameworks([RuntimeApp])
  const LANGUAGE_SERVER: Path := InServer(["@typescript", "typescript-darwin-arm64", "lib", "tsc"])
  const MANAGED_TOOLS_PATH: Path := [Contents, Resources, ManagedTools]
  const APP_TREE: Path := [Contents, Resources, AppTree]

  /** Where a path of the order is in the packaged app, or a throw for one that is nowhere. */
  function PackagedNativePath(p: Path): Option<Path> {
    if !Inside(p, APP_TREE) then Some(p)
    else
      var payload := p[3..];
      if Inside(payload, [Apps, Server]) then Some(p)
      else if p in DESKTOP_MODULES then Some([Contents, Resources, AppUnpacked] + payload)
      else None
  }

  function Under(root: Path, paths: seq<Path>): seq<Path> {
    seq(|paths|, i requires 0 <= i < |paths| => root + paths[i])
  }

  /** The paths of the order that lie in the frameworks folder: what the worker runtime has too. */
  function OnlyFrameworks(paths: seq<Path>): seq<Path> {
    if paths == [] then []
    else (if [Contents, Frameworks] <= paths[0] then [paths[0]] else []) + OnlyFrameworks(paths[1..])
  }

  ghost predicate AllPackaged(paths: seq<Path>) {
    forall i :: 0 <= i < |paths| ==> PackagedNativePath(paths[i]).Some?
  }

  ghost function Packaged(paths: seq<Path>): seq<Path>
    requires AllPackaged(paths)
  {
    seq(|paths|, i requires 0 <= i < |paths| => PackagedNativePath(paths[i]).value)
  }

  // ---------------------------------------------------------------- the vendored tools

  datatype Entry = Entry(path: Path, isFile: bool, header: seq<byte>)

  /** The four bytes a thin 64-bit or universal Mach-O file begins with, in either order. */
  const MACH_O_MAGIC: seq<seq<byte>> := [
    [0xfe, 0xed, 0xfa, 0xcf], [0xcf, 0xfa, 0xed, 0xfe], [0xca, 0xfe, 0xba, 0xbe],
    [0xbe, 0xba, 0xfe, 0xca], [0xca, 0xfe, 0xba, 0xbf], [0xbf, 0xba, 0xfe, 0xca]
  ]

  predicate IsMachO(e: Entry) {
    e.isFile && |e.header| >= 4 && e.header[..4] in MACH_O_MAGIC
  }

  function MachOPaths(entries: seq<Entry>): seq<Path> {
    if entries == [] then []
    else
      var last := entries[|entries| - 1];
      MachOPaths(entries[..|entries| - 1]) + (if IsMachO(last) then [last.path] else [])
  }

  /** A header read as a big-endian number. */
  function Number(b: seq<byte>): nat
    requires |b| == 4
  {
    ((b[0] as nat * 0x100 + b[1] as nat) * 0x100 + b[2] as nat) * 0x100 + b[3] as nat
  }

  function Reversed(b: seq<byte>): seq<byte>
    requires |b| == 4
  {
    [b[3], b[2], b[1], b[0]]
  }

  /** Thin 64-bit, and universal with offsets of 32 and of 64 bits. */
  predicate IsMagic(n: nat) {
    n == 0xfeedfacf || n == 0xcafebabe || n == 0xcafebabf
  }

  lemma LastByte(front: nat, other: nat, x: nat, y: nat)
    requires x < 0x100 && y < 0x100 && front * 0x100 + x == other * 0x100 + y
    ensures front == other && x == y
  {
  }

  lemma NumberIsUnique(b: seq<byte>, c: seq<byte>)
    requires |b| == |c| == 4
    ensures Number(b) == Number(c) <==> b == c
  {
    if Number(b) == Number(c) {
      var one, two := b[0] as nat, c[0] as nat;
      var more, most := one * 0x100 + b[1] as nat, two * 0x100 + c[1] as nat;
      LastByte(more * 0x100 + b[2] as nat, most * 0x100 + c[2] as nat, b[3] as nat, c[3] as nat);
      LastByte(more, most, b[2] as nat, c[2] as nat);
      LastByte(one, two, b[1] as nat, c[1] as nat);
    }
  }

  lemma NumbersOfMagic()
    ensures Number([0xfe, 0xed, 0xfa, 0xcf]) == 0xfeedfacf && Number([0xca, 0xfe, 0xba, 0xbe]) == 0xcafebabe
    ensures Number([0xca, 0xfe, 0xba, 0xbf]) == 0xcafebabf
  {
  }

  lemma IsMagicExactly(b: seq<byte>)
    requires |b| == 4
    ensures IsMagic(Number(b)) <==>
      b == [0xfe, 0xed, 0xfa, 0xcf] || b == [0xca, 0xfe, 0xba, 0xbe] || b == [0xca, 0xfe, 0xba, 0xbf]
  {
    hide Number;
    NumbersOfMagic();
    NumberIsUnique(b, [0xfe, 0xed, 0xfa, 0xcf]);
    NumberIsUnique(b, [0xca, 0xfe, 0xba, 0xbe]);
    NumberIsUnique(b, [0xca, 0xfe, 0xba, 0xbf]);
  }

  lemma ReversedIs(b: seq<byte>, c: seq<byte>)
    requires |b| == |c| == 4
    ensures Reversed(b) == c <==> b == Reversed(c)
  {
    assert Reversed(Reversed(b)) == b && Reversed(Reversed(c)) == c;
  }

  /** A file is Mach-O exactly when its first four bytes are one of three numbers, in either byte order. */
  lemma MachOIsExact(e: Entry)
    ensures IsMachO(e) <==>
      e.isFile && |e.header| >= 4 && (IsMagic(Number(e.header[..4])) || IsMagic(Number(Reversed(e.header[..4]))))
  {
    hide Number, IsMagic;
    if |e.header| >= 4 {
      var b := e.header[..4];
      IsMagicExactly(b);
      IsMagicExactly(Reversed(b));
      ReversedIs(b, [0xfe, 0xed, 0xfa, 0xcf]);
      ReversedIs(b, [0xca, 0xfe, 0xba, 0xbe]);
      ReversedIs(b, [0xca, 0xfe, 0xba, 0xbf]);
    }
  }

  /** The comparison of the sort: deeper first, `less` among equally deep ones. */
  function DeeperFirst(less: (Path, Path) -> bool): (Path, Path) -> bool {
    (a: Path, b: Path) => |a| > |b| || (|a| == |b| && less(a, b))
  }

  method FindMachOFiles(entries: Option<seq<Entry>>, less: (Path, Path) -> bool) returns (found: seq<Path>)
    ensures found == if entries.None? then [] else Sorting.Sort(DeeperFirst(less), MachOPaths(entries.value))
  {
    if entries.None? { return []; }
    found := [];
    for i := 0 to |entries.value|
      invariant found == MachOPaths(entries.value[..i])
    {
      assert entries.value[..i + 1][..i] == entries.value[..i];
      if !entries.value[i].isFile { continue; }
      var header := entries.value[i].header;
      if |header| >= 4 && header[..4] in MACH_O_MAGIC { found := found + [entries.value[i].path]; }
    }
    assert entries.value[..|entries.value|] == entries.value;
    found := Sorting.Sort(DeeperFirst(less), found);
  }

  // ---------------------------------------------------------------- the order is inside out

  /** No target lies inside an earlier one. */
  ghost predicate InsideOut(paths: seq<Path>) {
    forall i, j :: 0 <= i < j < |paths| ==> !Inside(paths[j], paths[i])
  }

  /** None of `later` lies inside one of `earlier`. */
  ghost predicate Apart(earlier: seq<Path>, later: seq<Path>) {
    forall i, j :: 0 <= i < |earlier| && 0 <= j < |later| ==> !Inside(later[j], earlier[i])
  }

  lemma JoinInsideOut(earlier: seq<Path>, later: seq<Path>)
    requires InsideOut(earlier) && InsideOut(later) && Apart(earlier, later)
    ensures InsideOut(earlier + later)
  {
  }

  ghost predicate TaggedAt(paths: seq<Path>, k: nat, tags: set<Segment>) {
    forall i :: 0 <= i < |paths| ==> k < |paths[i]| && paths[i][k] in tags
  }

  lemma InsideUnder(root: Path, p: Path, q: Path)
    ensures Inside(root + p, root + q) == Inside(p, q)
  {
    if |q| < |p| {
      assert (root + p)[..|root + q|] == root + p[..|q|];
      assert (root + p[..|q|])[|root|..] == p[..|q|] && (root + q)[|root|..] == q;
    }
  }

  /** Paths that part ways at segment `k` do not enclose each other. */
  lemma ApartAt(earlier: seq<Path>, later: seq<Path>, k: nat, tags: set<Segment>, others: set<Segment>)
    requires TaggedAt(earlier, k, tags) && TaggedAt(later, k, others) && tags !! others
    ensures Apart(earlier, later)
  {
  }

  ghost predicate Shrinking(paths: seq<Path>) {
    forall i, j :: 0 <= i < j < |paths| ==> |paths[j]| <= |paths[i]|
  }

  lemma ShrinkingIsInsideOut(paths: seq<Path>)
    requires Shrinking(paths)
    ensures InsideOut(paths)
  {
  }

  ghost predicate AtMost(paths: seq<Path>, n: nat) {
    forall i :: 0 <= i < |paths| ==> |paths[i]| <= n
  }

  lemma UnderKeepsInsideOut(root: Path, paths: seq<Path>)
    requires InsideOut(paths)
    ensures InsideOut(Under(root, paths))
  {
    forall i, j | 0 <= i < j < |paths|
      ensures !Inside(root + paths[j], root + paths[i])
    {
      InsideUnder(root, paths[j], paths[i]);
    }
  }

  /** A part of the order whose paths share their second segment and have their third in `tags`. */
  ghost predicate Block(paths: seq<Path>, second: Segment, tags: set<Segment>) {
    && InsideOut(paths) && AtMost(paths, 10)
    && TaggedAt(paths, 0, {Contents}) && TaggedAt(paths, 1, {second}) && TaggedAt(paths, 2, tags)
  }

  lemma JoinBlocks(a: seq<Path>, b: seq<Path>, second: Segment, tags: set<Segment>, others: set<Segment>)
    requires Block(a, second, tags) && Block(b, second, others) && tags !! others
    ensures Block(a + b, second, tags + others)
  {
  }

  lemma ElectronShrinks()
    ensures Shrinking(ELECTRON) && AtMost(ELECTRON, 10)
  {
  }

  lemma ElectronBlock()
    ensures Block(ELECTRON, Frameworks, {ElectronFramework})
  {
    hide InsideOut, Shrinking, Inside, AtMost;
    ElectronShrinks();
    ShrinkingIsInsideOut(ELECTRON);
  }

  lemma PlainBlock()
    ensures Block(PLAIN_FRAMEWORKS, Frameworks, {Mantle, ReactiveObjC})
  {
    hide InsideOut, Inside;
    ShrinkingIsInsideOut(PLAIN_FRAMEWORKS);
  }

  lemma SquirrelBlock()
    ensures Block(SQUIRREL, Frameworks, {Squirrel})
  {
    hide Block;
    GoingIsABlock(SQUIRREL, Frameworks, Squirrel, 2, Squirrel);
  }

  function HelperTags(product: string): set<Segment> {
    {Helper(product, ""), Helper(product, "GPU"), Helper(product, "Plugin"), Helper(product, "Renderer")}
  }

  lemma HelperBlock(product: string)
    ensures Block(HelperApps(product), Frameworks, HelperTags(product))
  {
  }

  /** The path goes by these four segments and is no longer than ten. */
  predicate Goes(p: Path, second: Segment, third: Segment, at: nat, segment: Segment) {
    && 2 < |p| <= 10 && p[0] == Contents && p[1] == second && p[2] == third
    && at < |p| && p[at] == segment
  }

  ghost predicate AllGo(paths: seq<Path>, second: Segment, third: Segment, at: nat, segment: Segment) {
    forall i :: 0 <= i < |paths| ==> Goes(paths[i], second, third, at, segment)
  }

  /** Every path has the segment at `at`. */
  ghost predicate AllHave(paths: seq<Path>, at: nat, segment: Segment) {
    forall i :: 0 <= i < |paths| ==> at < |paths[i]| && paths[i][at] == segment
  }

  lemma HavingIsTagged(paths: seq<Path>, at: nat, segment: Segment)
    requires AllHave(paths, at, segment)
    ensures TaggedAt(paths, at, {segment})
  {
  }

  lemma GoingHas(paths: seq<Path>, second: Segment, third: Segment, at: nat, segment: Segment)
    requires AllGo(paths, second, third, at, segment)
    ensures AllHave(paths, 0, Contents) && AllHave(paths, 1, second) && AllHave(paths, 2, third)
    ensures AllHave(paths, at, segment) && AtMost(paths, 10)
  {
    forall i | 0 <= i < |paths|
      ensures 2 < |paths[i]| <= 10 && paths[i][0] == Contents && paths[i][1] == second && paths[i][2] == third
      ensures at < |paths[i]| && paths[i][at] == segment
    {
      assert Goes(paths[i], second, third, at, segment);
    }
  }

  lemma GoingIsABlock(paths: seq<Path>, second: Segment, third: Segment, at: nat, segment: Segment)
    requires AllGo(paths, second, third, at, segment) && Shrinking(paths)
    ensures Block(paths, second, {third}) && TaggedAt(paths, at, {segment})
  {
    hide InsideOut, Shrinking, TaggedAt, AllGo, AllHave, AtMost;
    ShrinkingIsInsideOut(paths);
    GoingHas(paths, second, third, at, segment);
    HavingIsTagged(paths, 0, Contents);
    HavingIsTagged(paths, 1, second);
    HavingIsTagged(paths, 2, third);
    HavingIsTagged(paths, at, segment);
  }

  lemma NativesGo(name: string)
    ensures Goes(InNative(name), Resources, Native, 2, Native) && |InNative(name)| == 4
  {
  }

  lemma NativeBlock()
    ensures Block(NATIVE_HELPERS, Resources, {Native})
  {
    hide InNative, Goes, Block, TaggedAt;
    forall name { NativesGo(name); }
    GoingIsABlock(NATIVE_HELPERS, Resources, Native, 2, Native);
  }

  lemma DesktopsGo(name: string)
    ensures Goes(InDesktop(name), Resources, AppTree, 4, Desktop) && |InDesktop(name)| == 9
  {
  }

  lemma DesktopBlock()
    ensures Block(DESKTOP_MODULES, Resources, {AppTree}) && TaggedAt(DESKTOP_MODULES, 4, {Desktop})
  {
    hide InDesktop, Goes, Block, TaggedAt;
    forall name { DesktopsGo(name); }
    GoingIsABlock(DESKTOP_MODULES, Resources, AppTree, 4, Desktop);
  }

  lemma ServersGo(names: seq<string>)
    requires |names| <= 4
    ensures Goes(InServer(names), Resources, AppTree, 4, Server) && |InServer(names)| == 6 + |names|
  {
  }

  lemma ServerBlock()
    ensures Block(SERVER_MODULES, Resources, {AppTree}) && TaggedAt(SERVER_MODULES, 4, {Server})
  {
    hide InServer, Goes, Block, TaggedAt;
    forall names: seq<string> | |names| <= 4 { ServersGo(names); }
    GoingIsABlock(SERVER_MODULES, Resources, AppTree, 4, Server);
  }

  lemma JoinModules(a: seq<Path>, b: seq<Path>)
    requires Block(a, Resources, {AppTree}) && TaggedAt(a, 4, {Desktop})
    requires Block(b, Resources, {AppTree}) && TaggedAt(b, 4, {Server})
    ensures Block(a + b, Resources, {AppTree})
  {
  }

  lemma FrameworksBlock(product: string)
    ensures Block(FrameworkOrder(product), Frameworks,
                  {ElectronFramework, Mantle, ReactiveObjC, Squirrel} + HelperTags(product))
  {
    var e, p, s, h := ELECTRON, PLAIN_FRAMEWORKS, SQUIRREL, HelperApps(product);
    ElectronBlock();
    PlainBlock();
    SquirrelBlock();
    HelperBlock(product);
    JoinBlocks(e, p, Frameworks, {ElectronFramework}, {Mantle, ReactiveObjC});
    var three := {ElectronFramework} + {Mantle, ReactiveObjC};
    JoinBlocks(e + p, s, Frameworks, three, {Squirrel});
    JoinBlocks(e + p + s, h, Frameworks, three + {Squirrel}, HelperTags(product));
    assert three + {Squirrel} == {ElectronFramework, Mantle, ReactiveObjC, Squirrel};
  }

  lemma NativesBlock()
    ensures Block(NATIVE_HELPERS + DESKTOP_MODULES + SERVER_MODULES, Resources, {Native, AppTree})
  {
    var n, d, s := NATIVE_HELPERS, DESKTOP_MODULES, SERVER_MODULES;
    NativeBlock();
    DesktopBlock();
    ServerBlock();
    JoinModules(d, s);
    JoinBlocks(n, d + s, Resources, {Native}, {AppTree});
    assert n + (d + s) == n + d + s;
    assert {Native} + {AppTree} == {Native, AppTree};
  }

  /** The published order is inside out, for every product. */
  lemma OrderIsInsideOut(product: string)
    ensures InsideOut(OrderFor(product)) && AtMost(OrderFor(product), 10)
    ensures TaggedAt(OrderFor(product), 0, {Contents})
    ensures TaggedAt(OrderFor(product), 2, OrderTags(product))
  {
    NativesBlock();
    FrameworksBlock(product);
    var natives, frameworks := NATIVE_HELPERS + DESKTOP_MODULES + SERVER_MODULES, FrameworkOrder(product);
    ApartAt(natives, frameworks, 1, {Resources}, {Frameworks});
    JoinInsideOut(natives, frameworks);
  }

  function OrderTags(product: string): set<Segment> {
    {Native, AppTree, ElectronFramework, Mantle, ReactiveObjC, Squirrel} + HelperTags(product)
  }

  // ---------------------------------------------------------------- the runtime's part of it

  lemma {:induction false} OnlyFrameworksOfAll(paths: seq<Path>)
    requires TaggedAt(paths, 0, {Contents}) && TaggedAt(paths, 1, {Frameworks})
    ensures OnlyFrameworks(paths) == paths
  {
    if paths != [] {
      var p := paths[0];
      assert p[0] == Contents && p[1] == Frameworks;
      assert p[..2] == [Contents, Frameworks];
      OnlyFrameworksOfAll(paths[1..]);
    }
  }

  lemma {:induction false} OnlyFrameworksSkips(paths: seq<Path>, rest: seq<Path>)
    requires TaggedAt(paths, 1, {Resources})
    ensures OnlyFrameworks(paths + rest) == OnlyFrameworks(rest)
  {
    if paths == [] {
      assert paths + rest == rest;
    } else {
      assert (paths + rest)[1..] == paths[1..] + rest;
      OnlyFrameworksSkips(paths[1..], rest);
    }
  }

  /** The runtime has the frameworks part of the order, in that order. */
  lemma RuntimeOrder(product: string)
    ensures OnlyFrameworks(OrderFor(product)) == FrameworkOrder(product)
  {
    NativesBlock();
    FrameworksBlock(product);
    OnlyFrameworksSkips(NATIVE_HELPERS + DESKTOP_MODULES + SERVER_MODULES, FrameworkOrder(product));
    OnlyFrameworksOfAll(FrameworkOrder(product));
  }

  // ---------------------------------------------------------------- where the paths are once packaged

  lemma ResourcesArePackaged(paths: seq<Path>)
    requires paths == DESKTOP_MODULES || paths == SERVER_MODULES || TaggedAt(paths, 2, {Native})
    ensures AllPackaged(paths)
  {
  }

  lemma FrameworksArePackaged(paths: seq<Path>)
    requires TaggedAt(paths, 1, {Frameworks})
    ensures AllPackaged(paths)
  {
  }

  /** `q` is where the desktop module `p` is unpacked. */
  ghost predicate Moves(p: Path, q: Path) {
    p in DESKTOP_MODULES && exists rest: Path :: p == APP_TREE + rest && q == [Contents, Resources, AppUnpacked] + rest
  }

  lemma DesktopIsApp(name: string)
    ensures Inside(InDesktop(name), APP_TREE) && !Inside(InDesktop(name)[3..], [Apps, Server])
  {
    var p := InDesktop(name);
    assert p[..3] == APP_TREE && p[3..][1] == Desktop && p[3..][..2][1] == Desktop;
  }

  lemma DesktopModulesAreApp()
    ensures forall p | p in DESKTOP_MODULES :: Inside(p, APP_TREE) && !Inside(p[3..], [Apps, Server])
  {
    hide InDesktop, Inside;
    forall name { DesktopIsApp(name); }
  }

  lemma InsideServer(p: Path)
    requires Inside(p, APP_TREE)
    ensures Inside(p[3..], [Apps, Server]) <==> Inside(p, APP_TREE + [Apps, Server])
  {
    assert p == APP_TREE + p[3..];
    InsideUnder(APP_TREE, p[3..], [Apps, Server]);
  }

  /** Desktop modules are unpacked, the server's files and what is outside the app tree stay, all else is refused. */
  lemma PackagedExactly(p: Path, q: Path)
    ensures PackagedNativePath(p) == Some(q) <==>
      Moves(p, q) || (q == p && (!Inside(p, APP_TREE) || Inside(p, APP_TREE + [Apps, Server])))
  {
    hide InDesktop;
    DesktopModulesAreApp();
    if Inside(p, APP_TREE) {
      InsideServer(p);
      assert p == APP_TREE + p[3..];
      forall rest: Path | p == APP_TREE + rest
        ensures rest == p[3..]
      {
      }
    }
  }

  /** Of the order, exactly the desktop modules are signed elsewhere. */
  lemma OnlyDesktopModulesMove(product: string, i: nat)
    requires i < |OrderFor(product)|
    ensures var p, q := OrderFor(product)[i], PackagedOrder(product)[i];
      if p in DESKTOP_MODULES then Moves(p, q) else q == p
  {
    hide OrderFor, Inside, PackagedNativePath;
    OrderIsPackaged(product);
    PackagedExactly(OrderFor(product)[i], PackagedOrder(product)[i]);
    DesktopModulesStay();
  }

  lemma DesktopModulesStay()
    ensures forall p | p in DESKTOP_MODULES :: Inside(p, APP_TREE) && !Inside(p, APP_TREE + [Apps, Server])
  {
    hide InDesktop, Inside;
    DesktopModulesAreApp();
    forall p | p in DESKTOP_MODULES
      ensures !Inside(p, APP_TREE + [Apps, Server])
    {
      InsideServer(p);
    }
  }

  lemma ServerStaysInPlace()
    ensures PackagedNativePath(LANGUAGE_SERVER) == Some(LANGUAGE_SERVER)
  {
  }

  /** No path of the order is refused as unexpected. */
  lemma OrderIsPackaged(product: string)
    ensures AllPackaged(OrderFor(product))
  {
    NativeBlock();
    FrameworksBlock(product);
    ResourcesArePackaged(NATIVE_HELPERS);
    ResourcesArePackaged(DESKTOP_MODULES);
    ResourcesArePackaged(SERVER_MODULES);
    FrameworksArePackaged(FrameworkOrder(product));
  }

  /** Moving the unpacked modules keeps what lies inside what. */
  lemma PackagedKeepsInside(p: Path, q: Path)
    requires PackagedNativePath(p).Some? && PackagedNativePath(q).Some?
    requires |p| >= 3 && |q| >= 3 && p[2] != AppUnpacked && q[2] != AppUnpacked
    ensures |PackagedNativePath(p).value| == |p|
    ensures PackagedNativePath(p).value[2] in {p[2], AppUnpacked}
    ensures Inside(PackagedNativePath(p).value, PackagedNativePath(q).value) ==> Inside(p, q)
  {
  }

  lemma PackagedIsInsideOut(paths: seq<Path>, tags: set<Segment>)
    requires InsideOut(paths) && AllPackaged(paths) && TaggedAt(paths, 2, tags) && AppUnpacked !in tags
    requires AtMost(paths, 10)
    ensures InsideOut(Packaged(paths)) && TaggedAt(Packaged(paths), 2, tags + {AppUnpacked})
    ensures AtMost(Packaged(paths), 10)
  {
    forall i, j | 0 <= i < |paths| && 0 <= j < |paths|
      ensures Inside(Packaged(paths)[j], Packaged(paths)[i]) ==> Inside(paths[j], paths[i])
      ensures |Packaged(paths)[j]| == |paths[j]| && Packaged(paths)[j][2] in tags + {AppUnpacked}
    {
      PackagedKeepsInside(paths[j], paths[i]);
    }
  }

  // ---------------------------------------------------------------- every target of a release

  /** The worker runtime's targets, then the runtime that seals them. */
  function RuntimeTargets(): seq<Path> {
    Under(RUNTIME, OnlyFrameworks(OrderFor("Octant Runtime"))) + [RUNTIME]
  }

  ghost function PackagedOrder(product: string): seq<Path> {
    OrderIsPackaged(product);
    Packaged(OrderFor(product))
  }

  /** All targets in turn: the worker runtime's, the tools, the language server, the app's, the app. */
  ghost function Targets(product: string, tools: seq<Path>): seq<Path> {
    RuntimeTargets() + tools + [LANGUAGE_SERVER] + PackagedOrder(product) + [[]]
  }

  lemma UnderRuntime(order: seq<Path>)
    requires InsideOut(order)
    ensures var runtime := Under(RUNTIME, order) + [RUNTIME];
            InsideOut(runtime) && TaggedAt(runtime, 2, {RuntimeApp})
  {
    UnderKeepsInsideOut(RUNTIME, order);
    assert Apart(Under(RUNTIME, order), [RUNTIME]);
    JoinInsideOut(Under(RUNTIME, order), [RUNTIME]);
  }

  /** They are the frameworks part of the order, inside the runtime, and then the runtime. */
  lemma RuntimeTargetsAre()
    ensures var order := FrameworkOrder("Octant Runtime");
            && |RuntimeTargets()| == |order| + 1 && RuntimeTargets()[|order|] == RUNTIME
            && forall i | 0 <= i < |order| :: RuntimeTargets()[i] == RUNTIME + order[i]
  {
    hide FrameworkOrder, OrderFor;
    RuntimeOrder("Octant Runtime");
  }

  lemma RuntimeIsInsideOut()
    ensures InsideOut(RuntimeTargets()) && TaggedAt(RuntimeTargets(), 2, {RuntimeApp})
  {
    hide InsideOut, TaggedAt, FrameworkOrder, OrderFor, Under;
    RuntimeOrder("Octant Runtime");
    FrameworksBlock("Octant Runtime");
    UnderRuntime(FrameworkOrder("Octant Runtime"));
  }

  lemma ServerThenOrder(order: seq<Path>, tags: set<Segment>)
    requires InsideOut(order) && AtMost(order, 10) && TaggedAt(order, 2, tags) && AppTree in tags
    ensures InsideOut([LANGUAGE_SERVER] + order) && TaggedAt([LANGUAGE_SERVER] + order, 2, tags)
  {
  }

  lemma JoinTargets(runtime: seq<Path>, tools: seq<Path>, server: Path, order: seq<Path>, tags: set<Segment>)
    requires InsideOut(runtime) && TaggedAt(runtime, 2, {RuntimeApp})
    requires InsideOut(tools) && TaggedAt(tools, 2, {ManagedTools})
    requires InsideOut([server] + order) && TaggedAt([server] + order, 2, tags)
    requires RuntimeApp !in tags && ManagedTools !in tags
    ensures InsideOut(runtime + tools + [server] + order + [[]])
  {
    var rest := [server] + order;
    ApartAt(runtime, tools, 2, {RuntimeApp}, {ManagedTools});
    JoinInsideOut(runtime, tools);
    ApartAt(runtime + tools, rest, 2, {RuntimeApp, ManagedTools}, tags);
    JoinInsideOut(runtime + tools, rest);
    JoinInsideOut(runtime + tools + rest, [[]]);
    assert runtime + tools + rest == runtime + tools + [server] + order;
  }

  lemma PackagedOrderIsInsideOut(product: string)
    ensures InsideOut([LANGUAGE_SERVER] + PackagedOrder(product))
    ensures TaggedAt([LANGUAGE_SERVER] + PackagedOrder(product), 2, OrderTags(product) + {AppUnpacked})
  {
    hide InsideOut, TaggedAt, OrderFor, AllPackaged, AtMost;
    OrderIsInsideOut(product);
    OrderIsPackaged(product);
    PackagedIsInsideOut(OrderFor(product), OrderTags(product));
    ServerThenOrder(PackagedOrder(product), OrderTags(product) + {AppUnpacked});
  }

  /** Whatever tools are found, no signed target lies inside an earlier one. */
  lemma TargetsAreInsideOut(product: string, tools: seq<Path>)
    requires InsideOut(tools) && TaggedAt(tools, 2, {ManagedTools})
    ensures InsideOut(Targets(product, tools))
  {
    hide RuntimeTargets, PackagedOrder, InsideOut, TaggedAt;
    RuntimeIsInsideOut();
    PackagedOrderIsInsideOut(product);
    JoinTargets(RuntimeTargets(), tools, LANGUAGE_SERVER, PackagedOrder(product), OrderTags(product) + {AppUnpacked});
  }

  predicate IsTool(p: Path) {
    |p| > 3 && MANAGED_TOOLS_PATH <= p
  }

  /** Deeper paths come first, and equally deep ones as `less` has them. */
  ghost predicate InTurn(paths: seq<Path>, less: (Path, Path) -> bool) {
    forall i, j :: 0 <= i < j < |paths| ==>
      |paths[i]| > |paths[j]| || (|paths[i]| == |paths[j]| && !less(paths[j], paths[i]))
  }

  lemma SortedToolsAreInsideOut(found: seq<Path>, less: (Path, Path) -> bool, domain: set<Path>)
    requires Sorting.StrictTotalOrderOn(less, domain)
    requires forall p :: p in found ==> p in domain && IsTool(p)
    ensures var tools := Sorting.Sort(DeeperFirst(less), found);
            InsideOut(tools) && TaggedAt(tools, 2, {ManagedTools}) && InTurn(tools, less)
  {
    var tools := Sorting.Sort(DeeperFirst(less), found);
    assert Sorting.StrictTotalOrderOn(DeeperFirst(less), domain);
    Sorting.SortOrders(DeeperFirst(less), found, domain);
    forall i | 0 <= i < |tools|
      ensures 2 < |tools[i]| && tools[i][2] == ManagedTools
    {
      assert tools[i] in multiset(tools);
      assert IsTool(tools[i]) && MANAGED_TOOLS_PATH[2] == ManagedTools;
    }
    forall i, j | 0 <= i < j < |tools|
      ensures !Inside(tools[j], tools[i])
      ensures |tools[i]| > |tools[j]| || (|tools[i]| == |tools[j]| && !less(tools[j], tools[i]))
    {
      assert !DeeperFirst(less)(tools[j], tools[i]);
    }
  }

  /** The tools as they are found, deepest first, are inside out in whatever order they were listed. */
  lemma FoundToolsAreInsideOut(entries: seq<Entry>, less: (Path, Path) -> bool, domain: set<Path>)
    requires Sorting.StrictTotalOrderOn(less, domain)
    requires forall e :: e in entries ==> e.path in domain && IsTool(e.path)
    ensures var tools := Sorting.Sort(DeeperFirst(less), MachOPaths(entries));
            InsideOut(tools) && TaggedAt(tools, 2, {ManagedTools}) && InTurn(tools, less)
  {
    MachOPathsAreEntries(entries);
    SortedToolsAreInsideOut(MachOPaths(entries), less, domain);
  }

  predicate Distinct(paths: seq<Path>) {
    forall i, j :: 0 <= i < j < |paths| ==> paths[i] != paths[j]
  }

  predicate ListedOnce(entries: seq<Entry>) {
    forall i, j :: 0 <= i < j < |entries| ==> entries[i].path != entries[j].path
  }

  /** What is found is what is there, each once. */
  lemma {:induction false} MachOPathsAreEntries(entries: seq<Entry>)
    ensures forall p :: p in MachOPaths(entries) <==> exists e :: e in entries && IsMachO(e) && e.path == p
    ensures ListedOnce(entries) ==> Distinct(MachOPaths(entries))
  {
    if entries != [] {
      var last, before := entries[|entries| - 1], entries[..|entries| - 1];
      MachOPathsAreEntries(before);
      assert entries == before + [last];
      if ListedOnce(entries) {
        forall e | e in before
          ensures e.path != last.path
        {
          var i :| 0 <= i < |before| && before[i] == e;
          assert entries[i] == e;
        }
        forall i | 0 <= i < |MachOPaths(before)|
          ensures MachOPaths(before)[i] != last.path
        {
          assert MachOPaths(before)[i] in MachOPaths(before);
        }
      }
    }
  }
}
