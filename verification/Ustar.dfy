/**
 The header block of scripts/package-headless.ts as a value, and a header reader
 written from the "ustar Interchange Format" section of the `pax` utility in
 IEEE Std 1003.1-2017. Paths are their UTF-8 bytes, in which 0x2F is always "/".
 */
module Ustar {
  import opened Prelude
  import opened Octal

  const BLOCK: nat := 512
  const NAME_LIMIT: nat := 100
  const PREFIX_LIMIT: nat := 155
  const MAGIC: seq<byte> := [117, 115, 116, 97, 114, 0]
  const VERSION: seq<byte> := [48, 48]
  const REGULAR_FILE: byte := 48

  datatype Split = Split(name: seq<byte>, prefix: seq<byte>)

  /** A separator at `i` leaves both halves within their fields. */
  predicate FitsAt(path: seq<byte>, i: nat) {
    i < |path| && path[i] == SLASH && i <= PREFIX_LIMIT && |path| - i - 1 <= NAME_LIMIT
  }

  /** The first fitting separator at or after `from`. */
  function FirstFit(path: seq<byte>, from: nat): (r: Option<nat>)
    ensures r.Some? ==> from <= r.value && FitsAt(path, r.value)
    ensures r.Some? ==> forall i | from <= i < r.value :: !FitsAt(path, i)
    ensures r.None? ==> forall i | from <= i < |path| :: !FitsAt(path, i)
    decreases |path| - from
  {
    if from >= |path| then None
    else if FitsAt(path, from) then Some(from)
    else FirstFit(path, from + 1)
  }

  function SplitPath(path: seq<byte>): Option<Split> {
    if |path| <= NAME_LIMIT then Some(Split(path, []))
    else match FirstFit(path, 0)
      case None => None
      case Some(i) => Some(Split(path[i + 1..], path[..i]))
  }

  function Sum(s: seq<byte>): (r: nat)
    ensures r <= 255 * |s|
  {
    if s == [] then 0 else Sum(s[..|s| - 1]) + s[|s| - 1]
  }

  /** Every byte counts once. */
  lemma {:induction false} SumAdds(a: seq<byte>, b: seq<byte>)
    ensures Sum(a + b) == Sum(a) + Sum(b)
    ensures forall x: byte :: Sum([x]) == x as nat
    decreases |b|
  {
    if b == [] {
      assert a + b == a;
    } else {
      assert (a + b)[..|a + b| - 1] == a + b[..|b| - 1];
      SumAdds(a, b[..|b| - 1]);
    }
  }

  function TextField(text: seq<byte>, length: nat): (r: seq<byte>)
    requires |text| <= length
    ensures |r| == length
  {
    text + Fill(NUL, length - |text|)
  }

  predicate ValidSplit(s: Split) {
    |s.name| <= NAME_LIMIT && |s.prefix| <= PREFIX_LIMIT
  }

  /** Bytes 0 to 147: name, mode, uid, gid, size, mtime. */
  function HeadFields(s: Split, size: nat, mode: nat): (r: seq<byte>)
    requires ValidSplit(s)
    ensures |r| == 148
  {
    TextField(s.name, 100) + OctalField(8, mode) + OctalField(8, 0) + OctalField(8, 0)
    + OctalField(12, size) + OctalField(12, 0)
  }

  /** Bytes 156 to 511: typeflag, linkname, magic, version, owner and device fields, prefix, fill. */
  function TailFields(s: Split): (r: seq<byte>)
    requires ValidSplit(s)
    ensures |r| == 356
  {
    [REGULAR_FILE] + Fill(NUL, 100) + MAGIC + VERSION + Fill(NUL, 80)
    + TextField(s.prefix, 155) + Fill(NUL, 12)
  }

  /** The sum of all header bytes, the checksum field counted as eight spaces. */
  function Checksum(head: seq<byte>, tail: seq<byte>): nat {
    Sum(head + Fill(SPACE, 8) + tail)
  }

  function ChecksumField(checksum: nat): (r: seq<byte>)
    ensures |r| == 8
  {
    (PadStart(ToOctal(checksum), 6) + [NUL, SPACE])[..8]
  }

  function Header(s: Split, size: nat, mode: nat): (r: seq<byte>)
    requires ValidSplit(s)
    ensures |r| == BLOCK
  {
    var head, tail := HeadFields(s, size, mode), TailFields(s);
    head + ChecksumField(Checksum(head, tail)) + tail
  }

  // ---------------------------------------------------------------- reader

  datatype Meta = Meta(path: seq<byte>, mode: nat, uid: nat, gid: nat, size: nat, mtime: nat)

  datatype Refusal = BadMagic | BadChecksum | NotARegularFile | BadNumber | Truncated

  /** A text field runs to its first NUL, or fills its field. */
  function UntilNul(field: seq<byte>): seq<byte> {
    if field == [] || field[0] == NUL then [] else [field[0]] + UntilNul(field[1..])
  }

  /** The reader joins a non-empty prefix back on with a separator. */
  function JoinPath(prefix: seq<byte>, name: seq<byte>): seq<byte> {
    if prefix == [] then name else prefix + [SLASH] + name
  }

  function ReadHeader(block: seq<byte>): Result<Meta, Refusal>
    requires |block| == BLOCK
  {
    if block[257..263] != [0x75, 0x73, 0x74, 0x61, 0x72, 0x00] || block[263..265] != [0x30, 0x30] then Err(BadMagic)
    else if ReadOctal(block[148..156]) != Some(Sum(block[..148] + Fill(SPACE, 8) + block[156..])) then
      Err(BadChecksum)
    else if block[156] != 0x30 then Err(NotARegularFile)
    else match (ReadOctal(block[100..108]), ReadOctal(block[108..116]), ReadOctal(block[116..124]),
                ReadOctal(block[124..136]), ReadOctal(block[136..148]))
      case (Some(mode), Some(uid), Some(gid), Some(size), Some(mtime)) =>
        var path := JoinPath(UntilNul(block[345..500]), UntilNul(block[0..100]));
        Ok(Meta(path, mode, uid, gid, size, mtime))
      case _ => Err(BadNumber)
  }

  // ---------------------------------------------------------------- reading undoes writing

  predicate NulFree(s: seq<byte>) {
    forall i | 0 <= i < |s| :: s[i] != NUL
  }

  lemma {:induction false} UntilNulOfTextField(text: seq<byte>, n: nat)
    ensures UntilNul(text + Fill(NUL, n)) == text <==> NulFree(text)
    ensures UntilNul(text + Fill(NUL, n)) <= text
  {
    var field := text + Fill(NUL, n);
    if text != [] {
      assert field[1..] == text[1..] + Fill(NUL, n);
      UntilNulOfTextField(text[1..], n);
      assert text == [text[0]] + text[1..];
      assert NulFree(text) <==> text[0] != NUL && NulFree(text[1..]);
    }
  }

  /** 512 bytes of at most 255 sum to less than 8 to the 6, so the checksum always fits. */
  lemma ChecksumFieldReads(head: seq<byte>, tail: seq<byte>)
    requires |head| == 148 && |tail| == 356
    ensures ReadOctal(ChecksumField(Checksum(head, tail))) == Some(Checksum(head, tail))
  {
    var checksum := Checksum(head, tail);
    ChecksumHasSixDigits(head, tail);
    ValueOfToOctal(checksum);
    PaddingKeepsValue(6 - |ToOctal(checksum)|, ToOctal(checksum));
    var digits := Fill(ZERO, 6 - |ToOctal(checksum)|) + ToOctal(checksum);
    assert PadStart(ToOctal(checksum), 6) == digits;
    assert ChecksumField(checksum) == digits + [NUL, SPACE];
    ReadTerminated(digits, [NUL, SPACE]);
  }

  /** The field of the checksum is six digits, a zero byte and a space. */
  lemma ChecksumFieldBytes(head: seq<byte>, tail: seq<byte>)
    requires |head| == 148 && |tail| == 356
    ensures var field := ChecksumField(Checksum(head, tail));
      (forall i | 0 <= i < 6 :: IsOctalDigit(field[i])) && field[6] == NUL && field[7] == SPACE
  {
    hide Sum, ToOctal, Value;
    var checksum := Checksum(head, tail);
    ChecksumHasSixDigits(head, tail);
    assert PadStart(ToOctal(checksum), 6) == Fill(ZERO, 6 - |ToOctal(checksum)|) + ToOctal(checksum);
  }

  lemma ChecksumHasSixDigits(head: seq<byte>, tail: seq<byte>)
    requires |head| == 148 && |tail| == 356
    ensures |ToOctal(Checksum(head, tail))| <= 6
  {
    assert Checksum(head, tail) <= 255 * 512;
    assert Pow8(6) == 262144 by {
      assert Pow8(2) == 64 && Pow8(4) == 64 * Pow8(2);
    }
    DigitCount(Checksum(head, tail), 6);
  }

  lemma HeadLayout(s: Split, size: nat, mode: nat)
    requires ValidSplit(s)
    ensures var h := HeadFields(s, size, mode);
      && h[0..100] == TextField(s.name, 100)
      && h[100..108] == OctalField(8, mode)
      && h[108..116] == OctalField(8, 0)
      && h[116..124] == OctalField(8, 0)
      && h[124..136] == OctalField(12, size)
      && h[136..148] == OctalField(12, 0)
  {
    hide OctalField, TextField;
  }

  lemma TailLayout(s: Split)
    requires ValidSplit(s)
    ensures var t := TailFields(s);
      && t[0] == REGULAR_FILE
      && t[101..107] == MAGIC
      && t[107..109] == VERSION
      && t[189..344] == TextField(s.prefix, 155)
  {
  }

  /** Each field of a block sits where its part of the block put it. */
  lemma BlockLayout(head: seq<byte>, check: seq<byte>, tail: seq<byte>)
    requires |head| == 148 && |check| == 8 && |tail| == 356
    ensures var b := head + check + tail;
      && b[..148] == head && b[148..156] == check && b[156..] == tail
      && b[0..100] == head[0..100] && b[100..108] == head[100..108] && b[108..116] == head[108..116]
      && b[116..124] == head[116..124] && b[124..136] == head[124..136] && b[136..148] == head[136..148]
      && b[156] == tail[0] && b[257..263] == tail[101..107] && b[263..265] == tail[107..109]
      && b[345..500] == tail[189..344]
  {
  }

  /** The bytes no reader needs: after each text and in the fields left empty there are zeros. */
  predicate IsLeftEmpty(s: Split, k: nat)
    requires ValidSplit(s)
  {
    || |s.name| <= k < 100 || 157 <= k < 257 || 265 <= k < 345 || 345 + |s.prefix| <= k < BLOCK
  }

  lemma EmptyBytesAreZero(s: Split, size: nat, mode: nat, k: nat)
    requires ValidSplit(s) && IsLeftEmpty(s, k)
    ensures Header(s, size, mode)[k] == NUL
  {
    hide ChecksumField, Checksum, OctalField;
    var head, tail := HeadFields(s, size, mode), TailFields(s);
    if k >= 156 { assert Header(s, size, mode)[k] == tail[k - 156]; }
  }

  /** What the reader makes of a header the packager wrote. */
  lemma HeaderReads(s: Split, size: nat, mode: nat)
    requires ValidSplit(s) && mode < Pow8(7)
    ensures ReadHeader(Header(s, size, mode)) ==
      if size >= Pow8(11) then Err(BadNumber)
      else Ok(Meta(JoinPath(UntilNul(TextField(s.prefix, 155)), UntilNul(TextField(s.name, 100))),
                   mode, 0, 0, size, 0))
  {
    var head, tail := HeadFields(s, size, mode), TailFields(s);
    HeadLayout(s, size, mode);
    TailLayout(s);
    LaidOutHeaderReads(s, size, mode, head, tail);
  }

  lemma LaidOutHeaderReads(s: Split, size: nat, mode: nat, head: seq<byte>, tail: seq<byte>)
    requires ValidSplit(s) && mode < Pow8(7)
    requires |head| == 148 && |tail| == 356
    requires head[0..100] == TextField(s.name, 100) && head[100..108] == OctalField(8, mode)
    requires head[108..116] == OctalField(8, 0) && head[116..124] == OctalField(8, 0)
    requires head[124..136] == OctalField(12, size) && head[136..148] == OctalField(12, 0)
    requires tail[0] == REGULAR_FILE && tail[101..107] == MAGIC && tail[107..109] == VERSION
    requires tail[189..344] == TextField(s.prefix, 155)
    ensures ReadHeader(head + ChecksumField(Checksum(head, tail)) + tail) ==
      if size >= Pow8(11) then Err(BadNumber)
      else Ok(Meta(JoinPath(UntilNul(TextField(s.prefix, 155)), UntilNul(TextField(s.name, 100))),
                   mode, 0, 0, size, 0))
  {
    hide OctalField, ReadOctal, Sum, TextField, UntilNul, JoinPath;
    BlockLayout(head, ChecksumField(Checksum(head, tail)), tail);
    ChecksumFieldReads(head, tail);
    NumbersRead(size, mode);
  }

  lemma NumbersRead(size: nat, mode: nat)
    requires mode < Pow8(7)
    ensures ReadOctal(OctalField(8, mode)) == Some(mode) && ReadOctal(OctalField(8, 0)) == Some(0)
    ensures ReadOctal(OctalField(12, size)) == if size < Pow8(11) then Some(size) else None
    ensures ReadOctal(OctalField(12, 0)) == Some(0)
  {
    OctalFieldReads(8, mode);
    OctalFieldReads(8, 0);
    OctalFieldReads(12, size);
    OctalFieldReads(12, 0);
  }

  /**
   The paths the reader gives back as they were. A 101-byte path that starts with
   a separator is split there, and an empty prefix is not joined back on.
   */
  predicate ReadablePath(path: seq<byte>) {
    NulFree(path) && !(|path| == 101 && path[0] == SLASH)
  }

  lemma NulFreeParts(path: seq<byte>, i: nat)
    requires i < |path| && path[i] == SLASH
    ensures NulFree(path) <==> NulFree(path[..i]) && NulFree(path[i + 1..])
  {
    var front, back := path[..i], path[i + 1..];
    assert forall k | 0 <= k < i :: path[k] == front[k];
    assert forall k | i + 1 <= k < |path| :: path[k] == back[k - i - 1];
    assert forall k | 0 <= k < |back| :: back[k] == path[i + 1 + k];
  }

  /** Of a split path only the whole halves, joined at a separator that is not the first byte, give the path back. */
  lemma JoinedAt(path: seq<byte>, i: nat, readPrefix: seq<byte>, readName: seq<byte>)
    requires i < |path| && path[i] == SLASH && readPrefix <= path[..i] && readName <= path[i + 1..]
    ensures JoinPath(readPrefix, readName) == path <==> i > 0 && readPrefix == path[..i] && readName == path[i + 1..]
  {
    assert path == path[..i] + [SLASH] + path[i + 1..];
    if |readPrefix| < i || |readName| < |path| - i - 1 || i == 0 {
      assert |JoinPath(readPrefix, readName)| < |path|;
    }
  }

  lemma FirstByteSplits(path: seq<byte>)
    requires |path| > NAME_LIMIT && FirstFit(path, 0).Some?
    ensures FirstFit(path, 0) == Some(0) <==> |path| == NAME_LIMIT + 1 && path[0] == SLASH
  {
    if |path| == NAME_LIMIT + 1 && path[0] == SLASH {
      assert FitsAt(path, 0);
    }
  }

  lemma JoinedPathIsThePath(path: seq<byte>)
    requires SplitPath(path).Some?
    ensures var s := SplitPath(path).value;
      JoinPath(UntilNul(TextField(s.prefix, 155)), UntilNul(TextField(s.name, 100))) == path
      <==> ReadablePath(path)
  {
    hide UntilNul, NulFree;
    var s := SplitPath(path).value;
    UntilNulOfTextField(s.prefix, 155 - |s.prefix|);
    UntilNulOfTextField(s.name, 100 - |s.name|);
    if |path| <= NAME_LIMIT {
      UntilNulOfTextField([], 155);
    } else {
      hide JoinPath;
      var i := FirstFit(path, 0).value;
      NulFreeParts(path, i);
      JoinedAt(path, i, UntilNul(TextField(s.prefix, 155)), UntilNul(TextField(s.name, 100)));
      FirstByteSplits(path);
    }
  }

  /** One header: the reader gets back path, mode and size exactly when all three fit the format. */
  lemma HeaderRoundTrip(path: seq<byte>, size: nat, mode: nat)
    requires SplitPath(path).Some? && mode < Pow8(7)
    ensures ReadHeader(Header(SplitPath(path).value, size, mode)) == Ok(Meta(path, mode, 0, 0, size, 0))
            <==> ReadablePath(path) && size < Pow8(11)
  {
    HeaderReads(SplitPath(path).value, size, mode);
    JoinedPathIsThePath(path);
  }
}
