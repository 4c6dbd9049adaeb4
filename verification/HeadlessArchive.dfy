/**
 The archive writer of scripts/package-headless.ts: the header is filled in place,
 the checksum is an accumulating loop, the path split is an index loop and the
 archive is a list of pushed blocks. Each method is proved against a value.
 */
module HeadlessArchive {
  import opened Prelude
  import opened Octal
  import opened Ustar
  import Sorting

  type Path = seq<byte>

  /** A file as `readFile` and `stat` see it. */
  datatype FileOnDisk = FileOnDisk(contents: seq<byte>, permissions: bv32)

  datatype Entry = Entry(path: Path, contents: seq<byte>, mode: nat)

  /** Whether any of the three execute bits is set. */
  predicate Executable(permissions: bv32) {
    permissions & 1 == 1 || (permissions >> 3) & 1 == 1 || (permissions >> 6) & 1 == 1
  }

  /** 0o644, or 0o755 when any execute bit of 0o111 is set. */
  function ArchivedMode(permissions: bv32): (mode: nat)
    ensures mode < Pow8(7)
    ensures mode == if Executable(permissions) then 493 else 420
  {
    assert Pow8(3) == 512 && Pow8(7) >= Pow8(3) by {
      assert Pow8(1) == 8 && Pow8(2) == 64;
      assert Pow8(5) == 64 * Pow8(3) && Pow8(7) == 64 * Pow8(5);
    }
    if permissions & 73 == 0 then 420 else 493
  }

  function Padding(size: nat): (r: seq<byte>)
    ensures (size + |r|) % BLOCK == 0 && |r| < BLOCK && forall i | 0 <= i < |r| :: r[i] == NUL
  {
    if size % BLOCK == 0 then [] else Fill(NUL, BLOCK - size % BLOCK)
  }

  /** One file in the archive: header, contents, fill to the next block. The error is a path that cannot be split. */
  function EntryBytes(e: Entry): Result<seq<byte>, Path> {
    match SplitPath(e.path)
    case None => Err(e.path)
    case Some(s) => Ok(Header(s, |e.contents|, e.mode) + e.contents + Padding(|e.contents|))
  }

  /** The uncompressed archive: every entry in order, then two zero blocks. */
  function Archive(entries: seq<Entry>): Result<seq<byte>, Path> {
    if entries == [] then Ok(Fill(NUL, 1024))
    else match EntryBytes(entries[0])
      case Err(path) => Err(path)
      case Ok(first) =>
        match Archive(entries[1..])
        case Err(path) => Err(path)
        case Ok(rest) => Ok(first + rest)
  }

  function EntryOf(tree: map<Path, FileOnDisk>, archivePrefix: Path, path: Path): Entry
    requires path in tree
  {
    Entry(archivePrefix + [SLASH] + path, tree[path].contents, ArchivedMode(tree[path].permissions))
  }

  function Entries(tree: map<Path, FileOnDisk>, archivePrefix: Path, paths: seq<Path>): (r: seq<Entry>)
    requires forall p | p in paths :: p in tree
    ensures |r| == |paths|
    ensures forall i | 0 <= i < |paths| :: r[i] == EntryOf(tree, archivePrefix, paths[i])
  {
    seq(|paths|, i requires 0 <= i < |paths| => EntryOf(tree, archivePrefix, paths[i]))
  }

  // ---------------------------------------------------------------- writing in place

  function Splice(s: seq<byte>, offset: nat, text: seq<byte>): (r: seq<byte>)
    requires offset + |text| <= |s|
    ensures |r| == |s|
  {
    s[..offset] + text + s[offset + |text|..]
  }

  /** `buffer.write(text, offset, length)`: at most `length` bytes are copied in. */
  method Write(buffer: array<byte>, offset: nat, length: nat, text: seq<byte>)
    requires offset + length <= buffer.Length
    modifies buffer
    ensures |text| <= length ==> buffer[..] == Splice(old(buffer[..]), offset, text)
    ensures |text| > length ==> buffer[..] == Splice(old(buffer[..]), offset, text[..length])
  {
    var n := if |text| <= length then |text| else length;
    for i := 0 to n
      invariant forall k | 0 <= k < i :: buffer[offset + k] == text[k]
      invariant forall k | 0 <= k < buffer.Length && !(offset <= k < offset + i) :: buffer[k] == old(buffer[k])
    {
      buffer[offset + i] := text[i];
    }
    assert buffer[..] == Splice(old(buffer[..]), offset, text[..n]);
    assert |text| <= length ==> text[..n] == text;
  }

  method WriteOctal(buffer: array<byte>, offset: nat, length: nat, value: nat)
    requires length > 0 && offset + length <= buffer.Length
    modifies buffer
    ensures buffer[..] == Splice(old(buffer[..]), offset, OctalField(length, value))
  {
    var text := PadStart(ToOctal(value), length - 1) + [NUL];
    Write(buffer, offset, length, text);
    assert |text| == length ==> text[..length] == text;
  }

  /** The index loop over separators; `throw` is `None`. */
  method SplitUstarPath(path: Path) returns (r: Option<Split>)
    ensures r == SplitPath(path)
  {
    if |path| <= NAME_LIMIT {
      return Some(Split(path, []));
    }
    var index := NextSeparator(path, 0);
    while index.Some?
      invariant index.Some? ==> index.value < |path| && path[index.value] == SLASH
      invariant index.Some? ==> FirstFit(path, 0) == FirstFit(path, index.value)
      invariant index.None? ==> FirstFit(path, 0) == None
      decreases if index.Some? then |path| - index.value else 0
    {
      var i := index.value;
      if i <= PREFIX_LIMIT && |path| - i - 1 <= NAME_LIMIT {
        return Some(Split(path[i + 1..], path[..i]));
      }
      index := NextSeparator(path, i + 1);
    }
    return None;
  }

  /** `path.indexOf("/", from)` */
  method NextSeparator(path: Path, from: nat) returns (index: Option<nat>)
    requires from <= |path|
    ensures index.Some? ==> from <= index.value < |path| && path[index.value] == SLASH
    ensures index.Some? ==> FirstFit(path, from) == FirstFit(path, index.value)
    ensures index.None? ==> FirstFit(path, from) == None
  {
    var i := from;
    while i < |path|
      invariant from <= i <= |path|
      invariant FirstFit(path, from) == FirstFit(path, i)
    {
      if path[i] == SLASH {
        return Some(i);
      }
      i := i + 1;
    }
    return None;
  }

  /** A write into the zeros after `done` extends what is done. */
  lemma SpliceIntoZeros(done: seq<byte>, gap: nat, zeros: nat, text: seq<byte>)
    requires gap + |text| <= zeros
    ensures Splice(done + Fill(NUL, zeros), |done| + gap, text)
         == done + Fill(NUL, gap) + text + Fill(NUL, zeros - gap - |text|)
  {
  }

  /** The same, for text that fills only the front of its field. */
  lemma SpliceTextIntoZeros(done: seq<byte>, gap: nat, zeros: nat, text: seq<byte>, length: nat)
    requires |text| <= length && gap + length <= zeros
    ensures Splice(done + Fill(NUL, zeros), |done| + gap, text)
         == done + Fill(NUL, gap) + TextField(text, length) + Fill(NUL, zeros - gap - length)
  {
  }

  /** The two, when the write is right behind what is done. */
  lemma SpliceNext(done: seq<byte>, zeros: nat, text: seq<byte>)
    requires |text| <= zeros
    ensures Splice(done + Fill(NUL, zeros), |done|, text) == done + text + Fill(NUL, zeros - |text|)
  {
    SpliceIntoZeros(done, 0, zeros, text);
    assert done + Fill(NUL, 0) == done;
  }

  lemma SpliceTextNext(done: seq<byte>, zeros: nat, text: seq<byte>, length: nat)
    requires |text| <= length <= zeros
    ensures Splice(done + Fill(NUL, zeros), |done|, text) == done + TextField(text, length) + Fill(NUL, zeros - length)
  {
    SpliceTextIntoZeros(done, 0, zeros, text, length);
    assert done + Fill(NUL, 0) == done;
  }

  /** Name, mode, uid and gid. */
  method FillOwner(header: array<byte>, s: Split, mode: nat)
    requires header.Length == BLOCK && ValidSplit(s)
    requires header[..] == Fill(NUL, BLOCK)
    modifies header
    ensures header[..]
         == TextField(s.name, 100) + OctalField(8, mode) + OctalField(8, 0) + OctalField(8, 0) + Fill(NUL, 388)
  {
    hide Splice, Fill, OctalField, TextField;
    ghost var done := [];
    assert header[..] == done + Fill(NUL, 512);
    SpliceTextNext(done, 512, s.name, 100);
    Write(header, 0, 100, s.name);
    done := TextField(s.name, 100);
    assert [] + done == done;
    SpliceNext(done, 412, OctalField(8, mode));
    WriteOctal(header, 100, 8, mode);
    done := done + OctalField(8, mode);
    SpliceNext(done, 404, OctalField(8, 0));
    WriteOctal(header, 108, 8, 0);
    done := done + OctalField(8, 0);
    SpliceNext(done, 396, OctalField(8, 0));
    WriteOctal(header, 116, 8, 0);
  }

  method FillHead(header: array<byte>, s: Split, size: nat, mode: nat)
    requires header.Length == BLOCK && ValidSplit(s)
    requires header[..] == Fill(NUL, BLOCK)
    modifies header
    ensures header[..] == HeadFields(s, size, mode) + Fill(NUL, 364)
  {
    FillOwner(header, s, mode);
    ghost var done := TextField(s.name, 100) + OctalField(8, mode) + OctalField(8, 0) + OctalField(8, 0);
    SpliceIntoZeros(done, 0, 388, OctalField(12, size));
    WriteOctal(header, 124, 12, size);
    done := done + OctalField(12, size);
    assert header[..] == done + Fill(NUL, 376);
    SpliceIntoZeros(done, 0, 376, OctalField(12, 0));
    WriteOctal(header, 136, 12, 0);
  }

  /** Type, magic and version. */
  method FillMarks(header: array<byte>, ghost head: seq<byte>)
    requires header.Length == BLOCK && |head| == 156
    requires header[..] == head + Fill(NUL, 356)
    modifies header
    ensures header[..] == head + [REGULAR_FILE] + Fill(NUL, 100) + MAGIC + VERSION + Fill(NUL, 247)
  {
    SpliceIntoZeros(head, 0, 356, [REGULAR_FILE]);
    Write(header, 156, 1, [REGULAR_FILE]);
    ghost var typed := head + [REGULAR_FILE];
    assert header[..] == typed + Fill(NUL, 355);
    SpliceTextIntoZeros(typed, 100, 355, MAGIC[..5], 6);
    Write(header, 257, 5, MAGIC[..5]);
    assert TextField(MAGIC[..5], 6) == MAGIC;
    ghost var marked := typed + Fill(NUL, 100) + MAGIC;
    SpliceIntoZeros(marked, 0, 249, VERSION);
    Write(header, 263, 2, VERSION);
    assert header[..] == marked + Fill(NUL, 0) + VERSION + Fill(NUL, 247);
  }

  method FillTail(header: array<byte>, s: Split, ghost head: seq<byte>)
    requires header.Length == BLOCK && ValidSplit(s) && |head| == 156
    requires header[..] == head + Fill(NUL, 356)
    modifies header
    ensures header[..] == head + TailFields(s)
  {
    FillMarks(header, head);
    ghost var done := head + [REGULAR_FILE] + Fill(NUL, 100) + MAGIC + VERSION;
    SpliceTextIntoZeros(done, 80, 247, s.prefix, 155);
    Write(header, 345, 155, s.prefix);
    TailAssembles(head, s, done);
  }

  lemma TailAssembles(head: seq<byte>, s: Split, done: seq<byte>)
    requires ValidSplit(s)
    requires done == head + [REGULAR_FILE] + Fill(NUL, 100) + MAGIC + VERSION
    ensures done + Fill(NUL, 80) + TextField(s.prefix, 155) + Fill(NUL, 12) == head + TailFields(s)
  {
  }

  /** The header block, or `None` where the path split throws. */
  method TarHeader(path: Path, size: nat, mode: nat) returns (r: Option<array<byte>>)
    ensures r.None? <==> SplitPath(path).None?
    ensures r.Some? ==> fresh(r.value) && r.value[..] == Header(SplitPath(path).value, size, mode)
  {
    hide HeadFields, TailFields, Sum, Checksum, ChecksumField;
    var split := SplitUstarPath(path);
    if split.None? {
      return None;
    }
    var s := split.value;
    ghost var head, tail := HeadFields(s, size, mode), TailFields(s);
    var header := new byte[512](_ => 0);
    assert header[..] == Fill(NUL, BLOCK);
    FillHead(header, s, size, mode);
    SpliceIntoZeros(head, 0, 364, Fill(SPACE, 8));
    Write(header, 148, 8, Fill(SPACE, 8));
    assert header[..] == (head + Fill(SPACE, 8)) + Fill(NUL, 356);
    FillTail(header, s, head + Fill(SPACE, 8));
    FillChecksum(header, head, tail);
    r := Some(header);
  }

  /** The sum of the bytes, with spaces for the field, goes into the field. */
  method FillChecksum(header: array<byte>, ghost head: seq<byte>, ghost tail: seq<byte>)
    requires |head| == 148 && |tail| == 356 && header[..] == head + Fill(SPACE, 8) + tail
    modifies header
    ensures header[..] == head + ChecksumField(Checksum(head, tail)) + tail
  {
    hide Sum, ToOctal;
    var checksum := SumBytes(header);
    var text := PadStart(ToOctal(checksum), 6) + [NUL, SPACE];
    Write(header, 148, 8, text);
    assert |text| == 8 ==> text[..8] == text;
    SpliceBetween(head, Fill(SPACE, 8), tail, ChecksumField(checksum));
  }

  method SumBytes(header: array<byte>) returns (checksum: nat)
    ensures checksum == Sum(header[..])
  {
    checksum := 0;
    for i := 0 to header.Length
      invariant checksum == Sum(header[..i])
    {
      assert header[..i + 1][..i] == header[..i];
      checksum := checksum + header[i];
    }
    assert header[..header.Length] == header[..];
  }

  lemma SpliceBetween(head: seq<byte>, gap: seq<byte>, tail: seq<byte>, text: seq<byte>)
    requires |gap| == |text|
    ensures Splice(head + gap + tail, |head|, text) == head + text + tail
  {
  }

  function Concat(blocks: seq<seq<byte>>): seq<byte> {
    if blocks == [] then [] else Concat(blocks[..|blocks| - 1]) + blocks[|blocks| - 1]
  }

  lemma PushBlock(blocks: seq<seq<byte>>, block: seq<byte>)
    ensures Concat(blocks + [block]) == Concat(blocks) + block
  {
  }

  lemma PushFileBlocks(blocks: seq<seq<byte>>, header: seq<byte>, contents: seq<byte>)
    ensures var two, fill := blocks + [header] + [contents], Padding(|contents|);
      && Concat(two + [fill]) == Concat(blocks) + (header + contents + fill)
      && (fill == [] ==> Concat(two) == Concat(blocks) + (header + contents + fill))
  {
    hide Concat, Padding;
    var one, two, fill := blocks + [header], blocks + [header] + [contents], Padding(|contents|);
    PushBlock(blocks, header);
    PushBlock(one, contents);
    PushBlock(two, fill);
    assert Concat(blocks) + header + contents + fill == Concat(blocks) + (header + contents + fill);
    assert fill == [] ==> Concat(two) + fill == Concat(two);
  }

  /** One turn of the loop: header, contents, fill. `None` where the header throws. */
  method PushFile(blocks: seq<seq<byte>>, path: Path, file: FileOnDisk) returns (r: Option<seq<seq<byte>>>)
    ensures var e := EntryBytes(Entry(path, file.contents, ArchivedMode(file.permissions)));
      (r.None? ==> e == Err(path)) &&
      (r.Some? ==> e.Ok? && Concat(r.value) == Concat(blocks) + e.value)
  {
    hide Header, SplitPath, ArchivedMode, Concat;
    var mode := ArchivedMode(file.permissions);
    var header := TarHeader(path, |file.contents|, mode);
    if header.None? {
      return None;
    }
    var block := header.value[..];
    var pushed := blocks + [block] + [file.contents];
    PushFileBlocks(blocks, block, file.contents);
    var remainder := |file.contents| % BLOCK;
    if remainder != 0 {
      pushed := pushed + [Fill(NUL, BLOCK - remainder)];
    }
    r := Some(pushed);
  }

  /** What pushing the remaining entries behind `front` will give. */
  function Finish(front: seq<byte>, rest: seq<Entry>): Result<seq<byte>, Path> {
    match Archive(rest) case Ok(bytes) => Ok(front + bytes) case Err(path) => Err(path)
  }

  lemma FinishStep(front: seq<byte>, entries: seq<Entry>, i: nat)
    requires i < |entries|
    ensures match EntryBytes(entries[i])
      case Ok(first) => Finish(front + first, entries[i + 1..]) == Finish(front, entries[i..])
      case Err(path) => Finish(front, entries[i..]) == Err(path)
  {
    assert entries[i..][1..] == entries[i + 1..];
    if EntryBytes(entries[i]).Ok? && Archive(entries[i + 1..]).Ok? {
      var first, rest := EntryBytes(entries[i]).value, Archive(entries[i + 1..]).value;
      assert front + first + rest == front + (first + rest);
    }
  }

  lemma FinishFromNothing(entries: seq<Entry>)
    ensures Finish([], entries[0..]) == Archive(entries)
  {
    assert entries[0..] == entries;
    if Archive(entries).Ok? {
      assert [] + Archive(entries).value == Archive(entries).value;
    }
  }

  lemma SortKeepsFilesOf(tree: map<Path, FileOnDisk>, listing: seq<Path>, less: (Path, Path) -> bool)
    requires forall p | p in listing :: p in tree
    ensures forall p | p in Sorting.Sort(less, listing) :: p in tree
  {
    forall p | p in Sorting.Sort(less, listing)
      ensures p in tree
    {
      assert p in multiset(Sorting.Sort(less, listing));
    }
  }

  /** The archive of a tree whose files were listed in the order `listing`. */
  function Tarball(tree: map<Path, FileOnDisk>, listing: seq<Path>, archivePrefix: Path,
                   less: (Path, Path) -> bool): Result<seq<byte>, Path>
    requires forall p | p in listing :: p in tree
  {
    SortKeepsFilesOf(tree, listing, less);
    Archive(Entries(tree, archivePrefix, Sorting.Sort(less, listing)))
  }

  /**
   The archive before compression. `listing` is the order `collectFiles` met the
   files in, `less` stands for `localeCompare`; the error is the first path that
   cannot be split.
   */
  method CreateDeterministicTarball(tree: map<Path, FileOnDisk>, listing: seq<Path>, archivePrefix: Path,
                                    less: (Path, Path) -> bool)
    returns (r: Result<seq<byte>, Path>)
    requires forall p | p in listing :: p in tree
    ensures r == Tarball(tree, listing, archivePrefix, less)
  {
    var files := Sorting.Sort(less, listing);
    SortKeepsFilesOf(tree, listing, less);
    var blocks: seq<seq<byte>> := [];
    ghost var entries := Entries(tree, archivePrefix, files);
    FinishFromNothing(entries);
    for i := 0 to |files|
      invariant Finish(Concat(blocks), entries[i..]) == Archive(entries)
    {
      FinishStep(Concat(blocks), entries, i);
      var pushed := PushFile(blocks, archivePrefix + [SLASH] + files[i], tree[files[i]]);
      if pushed.None? {
        return Err(archivePrefix + [SLASH] + files[i]);
      }
      blocks := pushed.value;
    }
    assert entries[|files|..] == [];
    PushBlock(blocks, Fill(NUL, 1024));
    blocks := blocks + [Fill(NUL, 1024)];
    r := Ok(Concat(blocks));
  }
}
