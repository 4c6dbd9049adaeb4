/**
 Reading undoes writing: an archive reader after the `pax` standard, and what it
 makes of the archives of scripts/package-headless.ts.
 */
module HeadlessArchiveProperties {
  import opened Prelude
  import opened Octal
  import opened Ustar
  import opened HeadlessArchive
  import Sorting

  /** What a reader found: the entries, and whatever follows the end of the archive. */
  datatype Archived = Archived(entries: seq<Entry>, trailing: seq<byte>)

  function RoundUp(size: nat): (r: nat)
    ensures size <= r
  {
    if size % BLOCK == 0 then size else size + (BLOCK - size % BLOCK)
  }

  /** Reads header by header up to two zero blocks. */
  function ReadArchive(bytes: seq<byte>): Result<Archived, Refusal> {
    if |bytes| < BLOCK then Err(Truncated)
    else if bytes[..BLOCK] == Fill(NUL, BLOCK) then
      if |bytes| >= 1024 && bytes[BLOCK..1024] == Fill(NUL, BLOCK) then Ok(Archived([], bytes[1024..]))
      else Err(Truncated)
    else match ReadHeader(bytes[..BLOCK])
      case Err(refusal) => Err(refusal)
      case Ok(meta) =>
        var next := BLOCK + RoundUp(meta.size);
        if |bytes| < next then Err(Truncated)
        else match ReadArchive(bytes[next..])
          case Err(refusal) => Err(refusal)
          case Ok(rest) =>
            Ok(Archived([Entry(meta.path, bytes[BLOCK..BLOCK + meta.size], meta.mode)] + rest.entries, rest.trailing))
  }

  predicate Representable(e: Entry) {
    ReadablePath(e.path) && |e.contents| < Pow8(11)
  }

  lemma HeaderIsNotZero(s: Split, size: nat, mode: nat)
    requires ValidSplit(s)
    ensures Header(s, size, mode) != Fill(NUL, BLOCK)
  {
    var head, tail := HeadFields(s, size, mode), TailFields(s);
    BlockLayout(head, ChecksumField(Checksum(head, tail)), tail);
    TailLayout(s);
    assert Header(s, size, mode)[156] == REGULAR_FILE;
  }

  lemma EntryLayout(header: seq<byte>, contents: seq<byte>, rest: seq<byte>)
    requires |header| == BLOCK
    ensures var bytes := (header + contents + Padding(|contents|)) + rest;
      && bytes[..BLOCK] == header
      && |bytes| >= BLOCK + RoundUp(|contents|)
      && bytes[BLOCK..BLOCK + |contents|] == contents
      && bytes[BLOCK + RoundUp(|contents|)..] == rest
  {
  }

  /** Reading one written entry and then the rest. */
  lemma ReadEntry(e: Entry, s: Split, rest: seq<byte>)
    requires SplitPath(e.path) == Some(s) && e.mode < Pow8(7)
    ensures var path := JoinPath(UntilNul(TextField(s.prefix, 155)), UntilNul(TextField(s.name, 100)));
      ReadArchive(EntryBytes(e).value + rest) ==
        if |e.contents| >= Pow8(11) then Err(BadNumber)
        else match ReadArchive(rest)
          case Err(refusal) => Err(refusal)
          case Ok(a) => Ok(Archived([Entry(path, e.contents, e.mode)] + a.entries, a.trailing))
  {
    hide Header, ReadHeader, JoinPath, UntilNul, TextField, Padding;
    var header := Header(s, |e.contents|, e.mode);
    EntryLayout(header, e.contents, rest);
    HeaderIsNotZero(s, |e.contents|, e.mode);
    HeaderReads(s, |e.contents|, e.mode);
  }

  /** The reader recovers the list of files, and stops at its end, exactly when every file fits the format. */
  lemma {:induction false} ArchiveRoundTrip(entries: seq<Entry>)
    requires Archive(entries).Ok?
    requires forall e | e in entries :: e.mode < Pow8(7)
    ensures ReadArchive(Archive(entries).value) == Ok(Archived(entries, []))
            <==> forall e | e in entries :: Representable(e)
  {
    if entries == [] {
      var bytes := Fill(NUL, 1024);
      assert bytes[..BLOCK] == Fill(NUL, BLOCK) && bytes[BLOCK..1024] == Fill(NUL, BLOCK);
      assert bytes[1024..] == [];
    } else {
      var e, rest := entries[0], entries[1..];
      assert entries == [e] + rest;
      ArchiveRoundTrip(rest);
      var s := SplitPath(e.path).value;
      ReadEntry(e, s, Archive(rest).value);
      JoinedPathIsThePath(e.path);
      if ReadArchive(Archive(rest).value).Ok? {
        var a := ReadArchive(Archive(rest).value).value;
        var path := JoinPath(UntilNul(TextField(s.prefix, 155)), UntilNul(TextField(s.name, 100)));
        var read := [Entry(path, e.contents, e.mode)] + a.entries;
        assert read[0] == Entry(path, e.contents, e.mode) && read[1..] == a.entries;
        assert read == entries <==> path == e.path && a.entries == rest;
      }
    }
  }

  /** More than 100 bytes, and no separator has at most 155 bytes before and 100 behind it. */
  predicate TooLong(path: Path) {
    |path| > 100 && forall i | 0 <= i < |path| && path[i] == SLASH :: i > 155 || |path| - i - 1 > 100
  }

  /** Entry `i` has the path, which is too long, and no earlier one's is. */
  predicate IsFirstTooLong(entries: seq<Entry>, i: nat, path: Path) {
    i < |entries| && entries[i].path == path && TooLong(path) && forall j | 0 <= j < i :: !TooLong(entries[j].path)
  }

  lemma EntryRefusal(e: Entry)
    ensures EntryBytes(e).Err? <==> TooLong(e.path)
    ensures EntryBytes(e).Err? ==> EntryBytes(e).error == e.path
  {
    assert forall i: nat | i < |e.path| ::
      FitsAt(e.path, i) <==> e.path[i] == SLASH && i <= 155 && |e.path| - i - 1 <= 100;
  }

  lemma {:induction false} ArchiveRefusal(entries: seq<Entry>)
    ensures Archive(entries).Err? <==> exists e :: e in entries && TooLong(e.path)
    ensures Archive(entries).Err? ==> exists i: nat :: IsFirstTooLong(entries, i, Archive(entries).error)
  {
    hide TooLong, EntryBytes;
    if entries != [] {
      var rest := entries[1..];
      ArchiveRefusal(rest);
      assert entries == [entries[0]] + rest;
      EntryRefusal(entries[0]);
      if TooLong(entries[0].path) {
        assert IsFirstTooLong(entries, 0, entries[0].path);
      } else if Archive(rest).Err? {
        var i: nat :| IsFirstTooLong(rest, i, Archive(rest).error);
        assert forall j: nat | j < i + 1 :: !TooLong(entries[j].path) by {
          forall j: nat | j < i + 1 ensures !TooLong(entries[j].path) {
            if j > 0 { assert entries[j] == rest[j - 1]; }
          }
        }
        assert IsFirstTooLong(entries, i + 1, Archive(rest).error);
      }
    }
  }

  /** `collectFiles` lists every file of the tree once. */
  ghost predicate Lists(listing: seq<Path>, tree: map<Path, FileOnDisk>) {
    && (forall p | p in listing :: p in tree)
    && (forall p | p in tree :: p in listing)
    && (forall i, j | 0 <= i < j < |listing| :: listing[i] != listing[j])
  }

  lemma {:induction false} ListingsArePermutations(a: seq<Path>, b: seq<Path>)
    requires forall i, j | 0 <= i < j < |a| :: a[i] != a[j]
    requires forall i, j | 0 <= i < j < |b| :: b[i] != b[j]
    requires forall p :: p in a <==> p in b
    ensures multiset(a) == multiset(b)
  {
    OnceEach(a);
    OnceEach(b);
    forall p: Path
      ensures multiset(a)[p] == multiset(b)[p]
    {
      assert p in multiset(a) <==> p in a;
      assert p in multiset(b) <==> p in b;
    }
  }

  lemma {:induction false} OnceEach(a: seq<Path>)
    requires forall i, j | 0 <= i < j < |a| :: a[i] != a[j]
    ensures forall p | p in a :: multiset(a)[p] == 1
  {
    if a != [] {
      OnceEach(a[1..]);
      assert a == [a[0]] + a[1..];
      forall p | p in a
        ensures multiset(a)[p] == 1
      {
        if p == a[0] {
          assert p !in a[1..];
          assert p !in multiset(a[1..]);
        }
      }
    }
  }

  /** Equal paths, contents and execute bits: nothing else of the two trees may differ. */
  ghost predicate SameFiles(t: map<Path, FileOnDisk>, u: map<Path, FileOnDisk>) {
    && t.Keys == u.Keys
    && forall p | p in t ::
         t[p].contents == u[p].contents && ArchivedMode(t[p].permissions) == ArchivedMode(u[p].permissions)
  }

  /** The bytes depend on the set of files alone, not on the order a directory listed them. */
  lemma TarballIsDeterministic(t: map<Path, FileOnDisk>, u: map<Path, FileOnDisk>, a: seq<Path>, b: seq<Path>,
                               archivePrefix: Path, less: (Path, Path) -> bool)
    requires Lists(a, t) && Lists(b, u) && SameFiles(t, u)
    requires Sorting.StrictTotalOrderOn(less, t.Keys)
    ensures Tarball(t, a, archivePrefix, less) == Tarball(u, b, archivePrefix, less)
  {
    hide Archive;
    forall p: Path
      ensures p in a <==> p in b
    {
      assert p in t.Keys <==> p in u.Keys;
    }
    ListingsArePermutations(a, b);
    Sorting.SortIgnoresListingOrder(less, a, b, t.Keys);
    SortKeepsFilesOf(t, a, less);
    SortKeepsFilesOf(u, b, less);
    var sorted := Sorting.Sort(less, a);
    forall i | 0 <= i < |sorted|
      ensures EntryOf(t, archivePrefix, sorted[i]) == EntryOf(u, archivePrefix, sorted[i])
    {
      assert sorted[i] in t;
    }
    assert Entries(t, archivePrefix, sorted) == Entries(u, archivePrefix, sorted);
  }

  /** The entry is the file at `p`: its archive path, its contents, and 0o755 exactly when it is executable. */
  predicate IsFile(e: Entry, archivePrefix: Path, p: Path, f: FileOnDisk) {
    && e.path == archivePrefix + [SLASH] + p && e.contents == f.contents
    && e.mode == if Executable(f.permissions) then 493 else 420
  }

  /** Some entry is the file. */
  ghost predicate Holds(entries: seq<Entry>, archivePrefix: Path, p: Path, f: FileOnDisk) {
    exists i :: 0 <= i < |entries| && IsFile(entries[i], archivePrefix, p, f)
  }

  /** The entry is some file of the tree. */
  ghost predicate IsOfTree(e: Entry, archivePrefix: Path, tree: map<Path, FileOnDisk>) {
    exists p | p in tree :: IsFile(e, archivePrefix, p, tree[p])
  }

  /** Every file of the tree once, and nothing else. */
  ghost predicate HoldsExactly(entries: seq<Entry>, tree: map<Path, FileOnDisk>, archivePrefix: Path) {
    && |entries| == |tree|
    && (forall i, j | 0 <= i < j < |entries| :: entries[i].path != entries[j].path)
    && (forall p | p in tree :: Holds(entries, archivePrefix, p, tree[p]))
    && (forall i | 0 <= i < |entries| :: IsOfTree(entries[i], archivePrefix, tree))
  }

  /** The entries come by their paths in the order of the sort. */
  ghost predicate InOrder(entries: seq<Entry>, archivePrefix: Path, less: (Path, Path) -> bool) {
    forall i, j, p, q | 0 <= i < j < |entries|
      && entries[i].path == archivePrefix + [SLASH] + p && entries[j].path == archivePrefix + [SLASH] + q :: !less(q, p)
  }

  lemma SamePath(archivePrefix: Path, p: Path, q: Path)
    ensures archivePrefix + [SLASH] + p == archivePrefix + [SLASH] + q <==> p == q
  {
    assert (archivePrefix + [SLASH] + p)[|archivePrefix| + 1..] == p;
    assert (archivePrefix + [SLASH] + q)[|archivePrefix| + 1..] == q;
  }

  lemma EntryIsFile(tree: map<Path, FileOnDisk>, paths: seq<Path>, archivePrefix: Path, i: nat)
    requires Lists(paths, tree) && i < |paths|
    ensures paths[i] in tree && IsFile(Entries(tree, archivePrefix, paths)[i], archivePrefix, paths[i], tree[paths[i]])
  {
    assert paths[i] in tree;
    assert Entries(tree, archivePrefix, paths)[i] == EntryOf(tree, archivePrefix, paths[i]);
  }

  lemma PathsDiffer(tree: map<Path, FileOnDisk>, paths: seq<Path>, archivePrefix: Path, i: nat, j: nat)
    requires Lists(paths, tree) && i < j < |paths|
    ensures Entries(tree, archivePrefix, paths)[i].path != Entries(tree, archivePrefix, paths)[j].path
  {
    hide Entries;
    EntryIsFile(tree, paths, archivePrefix, i);
    EntryIsFile(tree, paths, archivePrefix, j);
    SamePath(archivePrefix, paths[i], paths[j]);
  }

  lemma FileIsHeld(tree: map<Path, FileOnDisk>, paths: seq<Path>, archivePrefix: Path, p: Path)
    requires Lists(paths, tree) && p in tree
    ensures Holds(Entries(tree, archivePrefix, paths), archivePrefix, p, tree[p])
  {
    hide IsFile, Entries;
    var i: nat :| i < |paths| && paths[i] == p;
    EntryIsFile(tree, paths, archivePrefix, i);
  }

  lemma EntriesAreTheFiles(tree: map<Path, FileOnDisk>, paths: seq<Path>, archivePrefix: Path)
    requires Lists(paths, tree)
    ensures HoldsExactly(Entries(tree, archivePrefix, paths), tree, archivePrefix)
  {
    hide IsFile, Entries, EntryOf, Holds;
    var entries := Entries(tree, archivePrefix, paths);
    ListingSize(paths, tree);
    forall i, j | 0 <= i < j < |entries|
      ensures entries[i].path != entries[j].path
    {
      PathsDiffer(tree, paths, archivePrefix, i, j);
    }
    forall p | p in tree
      ensures Holds(entries, archivePrefix, p, tree[p])
    {
      FileIsHeld(tree, paths, archivePrefix, p);
    }
    forall i: nat | i < |entries|
      ensures IsOfTree(entries[i], archivePrefix, tree)
    {
      EntryIsFile(tree, paths, archivePrefix, i);
    }
  }

  lemma EntriesAreInOrder(tree: map<Path, FileOnDisk>, paths: seq<Path>, archivePrefix: Path, less: (Path, Path) -> bool)
    requires Lists(paths, tree) && Sorting.Ordered(less, paths)
    ensures InOrder(Entries(tree, archivePrefix, paths), archivePrefix, less)
  {
    var entries := Entries(tree, archivePrefix, paths);
    forall i, j, p, q | 0 <= i < j < |entries|
      && entries[i].path == archivePrefix + [SLASH] + p && entries[j].path == archivePrefix + [SLASH] + q
      ensures !less(q, p)
    {
      assert paths[i] in tree && paths[j] in tree;
      assert entries[i].path == archivePrefix + [SLASH] + paths[i] && entries[j].path == archivePrefix + [SLASH] + paths[j];
      SamePath(archivePrefix, paths[i], p);
      SamePath(archivePrefix, paths[j], q);
    }
  }

  lemma {:induction false} OnceMeansDistinct(a: seq<Path>)
    requires forall p | p in multiset(a) :: multiset(a)[p] == 1
    ensures forall i, j | 0 <= i < j < |a| :: a[i] != a[j]
  {
    if a != [] {
      var rest := a[1..];
      assert a == [a[0]] + rest;
      assert multiset(a) == multiset{a[0]} + multiset(rest);
      forall p | p in multiset(rest)
        ensures multiset(rest)[p] == 1 && p != a[0]
      {
        assert multiset(a)[p] == 1;
      }
      OnceMeansDistinct(rest);
      forall j | 0 < j < |a|
        ensures a[0] != a[j]
      {
        assert a[j] == rest[j - 1] && rest[j - 1] in multiset(rest);
      }
    }
  }

  lemma SortedListing(tree: map<Path, FileOnDisk>, listing: seq<Path>, less: (Path, Path) -> bool)
    requires Lists(listing, tree)
    ensures Lists(Sorting.Sort(less, listing), tree)
  {
    var paths := Sorting.Sort(less, listing);
    forall p: Path
      ensures p in paths <==> p in listing
    {
      assert p in paths <==> p in multiset(paths);
      assert p in listing <==> p in multiset(listing);
    }
    OnceEach(listing);
    OnceMeansDistinct(paths);
  }

  /**
   The whole build: when no path is too long, the reader finds every file of the
   tree once, whatever order the listing was in, and in the order of the sort.
   */
  lemma TarballReadsBack(tree: map<Path, FileOnDisk>, listing: seq<Path>, archivePrefix: Path,
                         less: (Path, Path) -> bool)
    requires Lists(listing, tree)
    requires archivePrefix != [] && archivePrefix[0] != SLASH && NulFree(archivePrefix)
    requires forall p | p in tree :: NulFree(p) && |tree[p].contents| < Pow8(11)
    requires forall p | p in tree :: !TooLong(archivePrefix + [SLASH] + p)
    ensures Tarball(tree, listing, archivePrefix, less).Ok?
    ensures var read := ReadArchive(Tarball(tree, listing, archivePrefix, less).value);
      && read.Ok? && read.value.trailing == [] && HoldsExactly(read.value.entries, tree, archivePrefix)
      && (Sorting.StrictTotalOrderOn(less, tree.Keys) ==> InOrder(read.value.entries, archivePrefix, less))
  {
    hide Archive, ReadArchive, Sorting.StrictTotalOrderOn, Sorting.Ordered, HoldsExactly, InOrder, NulFree, Entries;
    SortKeepsFilesOf(tree, listing, less);
    var paths := Sorting.Sort(less, listing);
    SortedListing(tree, listing, less);
    EntriesAreTheFiles(tree, paths, archivePrefix);
    var entries := Entries(tree, archivePrefix, paths);
    FilesAreRepresentable(tree, paths, archivePrefix);
    if Sorting.StrictTotalOrderOn(less, tree.Keys) {
      Sorting.SortOrders(less, listing, tree.Keys);
      EntriesAreInOrder(tree, paths, archivePrefix, less);
    }
    ArchiveRefusal(entries);
    ArchiveRoundTrip(entries);
  }

  lemma FilesAreRepresentable(tree: map<Path, FileOnDisk>, paths: seq<Path>, archivePrefix: Path)
    requires Lists(paths, tree)
    requires archivePrefix != [] && archivePrefix[0] != SLASH && NulFree(archivePrefix)
    requires forall p | p in tree :: NulFree(p) && |tree[p].contents| < Pow8(11)
    requires forall p | p in tree :: !TooLong(archivePrefix + [SLASH] + p)
    ensures forall e | e in Entries(tree, archivePrefix, paths) :: Representable(e) && e.mode < Pow8(7) && !TooLong(e.path)
  {
    hide NulFree, Representable, TooLong;
    var entries := Entries(tree, archivePrefix, paths);
    forall e | e in entries
      ensures Representable(e) && e.mode < Pow8(7) && !TooLong(e.path)
    {
      var i :| 0 <= i < |entries| && entries[i] == e;
      assert paths[i] in tree;
      FileIsRepresentable(tree, archivePrefix, paths[i]);
    }
  }

  lemma FileIsRepresentable(tree: map<Path, FileOnDisk>, archivePrefix: Path, p: Path)
    requires p in tree && NulFree(p) && |tree[p].contents| < Pow8(11)
    requires archivePrefix != [] && archivePrefix[0] != SLASH && NulFree(archivePrefix)
    ensures Representable(EntryOf(tree, archivePrefix, p))
  {
  }

  lemma {:induction false} ListingSize(listing: seq<Path>, tree: map<Path, FileOnDisk>)
    requires Lists(listing, tree)
    ensures |listing| == |tree|
    decreases |listing|
  {
    if listing == [] {
      assert tree.Keys == {};
    } else {
      var rest := tree - {listing[0]};
      assert listing == [listing[0]] + listing[1..];
      assert rest.Keys == tree.Keys - {listing[0]};
      ListingSize(listing[1..], rest);
      assert |rest.Keys| == |tree.Keys| - 1;
    }
  }
}
