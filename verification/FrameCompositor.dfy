/**
 The frame recorder of scripts/canvas-prototype-containment-electron.ts: damage
 rectangles are copied row by row into one buffer of four bytes a point. It is
 proved against "the last writer of each point".
 */
module FrameCompositor {
  import opened Prelude

  /** A frame event: a rectangle of the page, and the pixels drawn there. */
  datatype Frame = Frame(
    frameWidth: nat, frameHeight: nat, x: nat, y: nat, width: nat, height: nat, pixels: seq<byte>)

  predicate InBounds(e: Frame) {
    && e.x + e.width <= e.frameWidth && e.y + e.height <= e.frameHeight
    && |e.pixels| >= e.height * e.width * 4
  }

  /** Where a channel of a pixel lies in a buffer of rows of `width` pixels. */
  function Index(width: nat, row: nat, column: nat, channel: nat): nat {
    (row * width + column) * 4 + channel
  }

  predicate Covers(e: Frame, row: nat, column: nat) {
    e.y <= row < e.y + e.height && e.x <= column < e.x + e.width
  }

  /** The byte `e` draws at a point it covers. */
  function Drawn(e: Frame, row: nat, column: nat, channel: nat): byte
    requires InBounds(e) && Covers(e, row, column) && channel < 4
  {
    IndexInRange(e.width, e.height, row - e.y, column - e.x, channel);
    e.pixels[Index(e.width, row - e.y, column - e.x, channel)]
  }

  predicate SameSize(a: Frame, b: Frame) {
    a.frameWidth == b.frameWidth && a.frameHeight == b.frameHeight
  }

  ghost predicate AllInBounds(history: seq<Frame>) {
    forall i | 0 <= i < |history| :: InBounds(history[i])
  }

  /**
   The last writer's byte: what the latest event that covers the point drew there,
   if the page has kept its size since, and zero otherwise.
   */
  ghost function Colour(history: seq<Frame>, row: nat, column: nat, channel: nat): byte
    requires AllInBounds(history) && channel < 4
  {
    if history == [] then 0
    else
      var n := |history| - 1;
      if Covers(history[n], row, column) then Drawn(history[n], row, column, channel)
      else if n > 0 && SameSize(history[n - 1], history[n]) then Colour(history[..n], row, column, channel)
      else 0
  }

  /** Event `k` is the last to cover the point, and the page has kept its size since. */
  ghost predicate IsLastWriter(history: seq<Frame>, k: nat, row: nat, column: nat) {
    && k < |history| && Covers(history[k], row, column)
    && forall i | k < i < |history| :: SameSize(history[i - 1], history[i]) && !Covers(history[i], row, column)
  }

  /** The byte for a point's channel in an event's own pixels, row by row, four bytes a pixel. */
  predicate DrawsAt(e: Frame, row: nat, column: nat, channel: nat, drawn: byte) {
    && Covers(e, row, column) && channel < 4
    && var at := ((row - e.y) * e.width + (column - e.x)) * 4 + channel;
    && 0 <= at < |e.pixels| && e.pixels[at] == drawn
  }

  /** A point shows what its last writer drew there, and is black when it has none. */
  lemma {:induction false} ColourIsTheLastWriters(history: seq<Frame>, row: nat, column: nat, channel: nat)
    requires AllInBounds(history) && channel < 4
    ensures forall k: nat | IsLastWriter(history, k, row, column) ::
      DrawsAt(history[k], row, column, channel, Colour(history, row, column, channel))
    ensures (forall k: nat :: !IsLastWriter(history, k, row, column)) ==> Colour(history, row, column, channel) == 0
  {
    hide DrawsAt;
    if history != [] {
      var n := |history| - 1;
      var before := history[..n];
      if Covers(history[n], row, column) {
        DrawnIsThere(history[n], row, column, channel);
        assert IsLastWriter(history, n, row, column);
      } else {
        ColourIsTheLastWriters(before, row, column, channel);
        forall k: nat
          ensures IsLastWriter(history, k, row, column) <==>
            IsLastWriter(before, k, row, column) && SameSize(history[n - 1], history[n])
        {
          WriterStays(history, k, row, column);
        }
      }
    }
  }

  lemma WriterStays(history: seq<Frame>, k: nat, row: nat, column: nat)
    requires history != [] && !Covers(history[|history| - 1], row, column)
    ensures var n := |history| - 1;
      IsLastWriter(history, k, row, column) <==>
        IsLastWriter(history[..n], k, row, column) && n > 0 && SameSize(history[n - 1], history[n])
  {
    var n := |history| - 1;
    assert forall i | 0 <= i < n :: history[..n][i] == history[i];
  }

  lemma DrawnIsThere(e: Frame, row: nat, column: nat, channel: nat)
    requires InBounds(e) && Covers(e, row, column) && channel < 4
    ensures DrawsAt(e, row, column, channel, Drawn(e, row, column, channel))
  {
    hide InBounds;
    IndexFits(e, row, column, channel);
  }

  lemma IndexFits(e: Frame, row: nat, column: nat, channel: nat)
    requires InBounds(e) && Covers(e, row, column) && channel < 4
    ensures 0 <= Index(e.width, row - e.y, column - e.x, channel) < |e.pixels|
  {
    IndexInRange(e.width, e.height, row - e.y, column - e.x, channel);
  }

  // ---------------------------------------------------------------- index arithmetic

  lemma RowsApart(width: nat, a: nat, b: nat)
    requires a < b
    ensures a * width + width <= b * width
  {
    Distributes(a, 1, width);
    Distributes(a + 1, b - a - 1, width);
    assert (b - a - 1) * width >= 0;
  }

  lemma Distributes(a: int, b: int, c: int)
    ensures (a + b) * c == a * c + b * c
  {
  }

  lemma IndexInRange(width: nat, height: nat, row: nat, column: nat, channel: nat)
    requires row < height && column < width && channel < 4
    ensures Index(width, row, column, channel) < height * width * 4
  {
    RowsApart(width, row, height);
  }

  /** A stretch of one row holds exactly its own points, wherever else a point may lie. */
  lemma StretchHolds(width: nat, row: nat, column: nat, channel: nat, at: nat, from: nat, length: nat)
    requires column < width && channel < 4 && from + length <= width
    ensures Index(width, at, from, 0) <= Index(width, row, column, channel) < Index(width, at, from, 0) + length * 4
            <==> row == at && from <= column < from + length
  {
    if row < at {
      RowsApart(width, row, at);
    } else if at < row {
      RowsApart(width, at, row);
    }
  }

  // ---------------------------------------------------------------- the recorder

  /** `target.set(source, offset)` */
  method Set(target: array<byte>, source: seq<byte>, offset: nat)
    requires offset + |source| <= target.Length
    modifies target
    ensures forall i | 0 <= i < target.Length ::
      target[i] == if offset <= i < offset + |source| then source[i - offset] else old(target[i])
  {
    for j := 0 to |source|
      invariant forall i | 0 <= i < target.Length ::
        target[i] == if offset <= i < offset + j then source[i - offset] else old(target[i])
    {
      target[offset + j] := source[j];
    }
  }

  /** `buffer` shows the last writer at every point of a page of `width` by `height`. */
  ghost predicate Shows(buffer: seq<byte>, width: nat, height: nat, history: seq<Frame>)
    requires AllInBounds(history)
  {
    && |buffer| == height * width * 4
    && forall row: nat, column: nat, channel: nat | row < height && column < width && channel < 4 ::
         Index(width, row, column, channel) < |buffer|
         && buffer[Index(width, row, column, channel)] == Colour(history, row, column, channel)
  }

  /** The point once the first `rows` rows of `e` are copied: what was there is black after a change of size. */
  ghost function Point(before: seq<Frame>, e: Frame, rows: nat, row: nat, column: nat, channel: nat): byte
    requires AllInBounds(before) && InBounds(e) && channel < 4
  {
    if Covers(e, row, column) && row < e.y + rows then Drawn(e, row, column, channel)
    else if before != [] && SameSize(before[|before| - 1], e) then Colour(before, row, column, channel)
    else 0
  }

  ghost predicate PartlyShows(buffer: seq<byte>, before: seq<Frame>, e: Frame, rows: nat)
    requires AllInBounds(before) && InBounds(e)
  {
    && |buffer| == e.frameHeight * e.frameWidth * 4
    && forall row: nat, column: nat, channel: nat | row < e.frameHeight && column < e.frameWidth && channel < 4 ::
         Index(e.frameWidth, row, column, channel) < |buffer|
         && buffer[Index(e.frameWidth, row, column, channel)] == Point(before, e, rows, row, column, channel)
  }

  /** One copied row draws its points and disturbs no others. */
  lemma CopiedRow(last: seq<byte>, now: seq<byte>, before: seq<Frame>, e: Frame, row: nat, piece: seq<byte>)
    requires AllInBounds(before) && InBounds(e) && row < e.height
    requires PartlyShows(last, before, e, row)
    requires IsRow(piece, e, row) && SplicedIn(last, now, piece, Index(e.frameWidth, e.y + row, e.x, 0))
    ensures PartlyShows(now, before, e, row + 1)
  {
    forall r: nat, column: nat, channel: nat | r < e.frameHeight && column < e.frameWidth && channel < 4
      ensures Index(e.frameWidth, r, column, channel) < |now|
      ensures now[Index(e.frameWidth, r, column, channel)] == Point(before, e, row + 1, r, column, channel)
    {
      CopiedPoint(last, now, before, e, row, piece, r, column, channel);
    }
  }

  /** The bytes of one row of the event. */
  predicate IsRow(piece: seq<byte>, e: Frame, row: nat) {
    && |piece| == e.width * 4
    && forall c | 0 <= c < |piece| :: row * e.width * 4 + c < |e.pixels| && piece[c] == e.pixels[row * e.width * 4 + c]
  }

  /** The piece stands at `at`, and all else is as it was. */
  predicate SplicedIn(last: seq<byte>, now: seq<byte>, piece: seq<byte>, at: nat) {
    && |now| == |last|
    && forall i | 0 <= i < |now| :: now[i] == if at <= i < at + |piece| then piece[i - at] else last[i]
  }

  lemma CopiedPoint(last: seq<byte>, now: seq<byte>, before: seq<Frame>, e: Frame, row: nat,
                    piece: seq<byte>, r: nat, column: nat, channel: nat)
    requires AllInBounds(before) && InBounds(e) && row < e.height
    requires PartlyShows(last, before, e, row)
    requires IsRow(piece, e, row) && SplicedIn(last, now, piece, Index(e.frameWidth, e.y + row, e.x, 0))
    requires r < e.frameHeight && column < e.frameWidth && channel < 4
    ensures Index(e.frameWidth, r, column, channel) < |now|
    ensures now[Index(e.frameWidth, r, column, channel)] == Point(before, e, row + 1, r, column, channel)
  {
    var i, at := Index(e.frameWidth, r, column, channel), Index(e.frameWidth, e.y + row, e.x, 0);
    IndexInRange(e.frameWidth, e.frameHeight, r, column, channel);
    StretchHolds(e.frameWidth, r, column, channel, e.y + row, e.x, e.width);
    if r == e.y + row && e.x <= column < e.x + e.width {
      SamePlace(e, row, column, channel);
      assert Covers(e, r, column);
      assert now[i] == piece[i - at] == e.pixels[row * e.width * 4 + (i - at)];
    } else {
      assert now[i] == last[i];
    }
  }

  lemma SamePlace(e: Frame, row: nat, column: nat, channel: nat)
    requires e.x <= column
    ensures row * e.width * 4 + Index(e.frameWidth, e.y + row, column, channel) - Index(e.frameWidth, e.y + row, e.x, 0)
         == Index(e.width, row, column - e.x, channel)
  {
  }

  lemma RowInRange(e: Frame, row: nat)
    requires InBounds(e) && row < e.height
    ensures row * e.width * 4 + e.width * 4 <= |e.pixels|
    ensures Index(e.frameWidth, e.y + row, e.x, 0) + e.width * 4 <= e.frameHeight * e.frameWidth * 4
  {
    RowsApart(e.width, row, e.height);
    RowsApart(e.frameWidth, e.y + row, e.frameHeight);
  }

  class Recorder {
    var count: nat
    var width: nat
    var height: nat
    var pixels: array<byte>
    ghost var history: seq<Frame>

    /** The buffer has the size of the last event and shows the last writer at every point. */
    ghost predicate Valid()
      reads this, pixels
    {
      && AllInBounds(history) && count == |history|
      && (history == [] ==> width == 0 && height == 0)
      && (history != [] ==>
            width == history[|history| - 1].frameWidth && height == history[|history| - 1].frameHeight)
      && Sized() && Shows(pixels[..], width, height, history)
    }

    constructor ()
      ensures Valid() && history == [] && fresh(pixels)
    {
      count, width, height, pixels, history := 0, 0, 0, new byte[0], [];
    }

    /** The buffer has a byte for every channel of every pixel of the page. */
    predicate Sized()
      reads this, pixels
    {
      pixels.Length == SizeOf(width, height)
    }

    /**
     The branch for a frame event, any event at all: it throws exactly when a row does
     not fit the buffer where it would go, and within bounds it never does.
     */
    method Send(e: Frame) returns (threw: bool)
      requires Sized()
      modifies this, pixels
      ensures Sized() && history == old(history) + [e]
      ensures pixels == old(pixels) || fresh(pixels)
      ensures threw <==> exists row: nat :: row < e.height && !RowFits(e, row)
      ensures old(Valid()) && InBounds(e) ==> !threw && Valid()
    {
      hide PartlyShows, RowFits;
      ghost var before := history;
      ghost var good := Valid() && InBounds(e);
      count := count + 1;
      if width != e.frameWidth || height != e.frameHeight {
        width, height := e.frameWidth, e.frameHeight;
        pixels := new byte[SizeOf(width, height)](_ => 0);
        if good { BlackShows(pixels[..], before, e); }
      } else {
        if good { KeptShows(pixels[..], before, e); }
      }
      history := history + [e];
      for row := 0 to e.height
        invariant width == e.frameWidth && height == e.frameHeight && Sized()
        invariant history == before + [e] && (good ==> count == |history|)
        invariant pixels == old(pixels) || fresh(pixels)
        invariant forall r: nat :: r < row ==> RowFits(e, r)
        invariant good ==> AllInBounds(before) && PartlyShows(pixels[..], before, e, row)
      {
        if good { RowInBoundsFits(e, row); }
        if !RowFits(e, row) { return true; }
        CopyRow(e, row, before, good);
      }
      if good { WholeFrameShows(pixels[..], before, e); }
      return false;
    }

    /** One turn of the copying loop. */
    method CopyRow(e: Frame, row: nat, ghost before: seq<Frame>, ghost good: bool)
      requires Sized() && width == e.frameWidth && height == e.frameHeight && row < e.height && RowFits(e, row)
      requires good ==> AllInBounds(before) && InBounds(e) && PartlyShows(pixels[..], before, e, row)
      modifies pixels
      ensures good ==> PartlyShows(pixels[..], before, e, row + 1)
    {
      ghost var last := pixels[..];
      var piece, at := Piece(e, row), Index(width, e.y + row, e.x, 0);
      Set(pixels, piece, at);
      assert SplicedIn(last, pixels[..], piece, at);
      if good {
        PieceIsTheRow(e, row);
        CopiedRow(last, pixels[..], before, e, row, piece);
      }
    }

    /** The colour at a page point, its place in the buffer rounded as `Math.round` does: off the page, whatever is there. */
    method ColourAt(x: real, y: real, scale: real) returns (colour: seq<byte>)
      ensures var row, column := Round(y * scale), Round(x * scale);
        && colour == Subarray(pixels[..], (row * width + column) * 4, (row * width + column) * 4 + 3)
        && (Valid() && 0 <= row < height && 0 <= column < width ==>
              |colour| == 3 && forall c: nat | c < 3 :: colour[c] == Colour(history, row, column, c))
    {
      hide Subarray, Colour;
      var row, column := Round(y * scale), Round(x * scale);
      colour := Subarray(pixels[..], (row * width + column) * 4, (row * width + column) * 4 + 3);
      if Valid() && 0 <= row < height && 0 <= column < width {
        ShownColour(pixels[..], width, height, history, row, column);
      }
    }
  }

  lemma SubarrayInside(s: seq<byte>, from: nat, length: nat)
    requires from + length <= |s|
    ensures var piece := Subarray(s, from, from + length);
      |piece| == length && forall c | 0 <= c < length :: piece[c] == s[from + c]
  {
  }

  lemma PieceIsTheRow(e: Frame, row: nat)
    requires InBounds(e) && row < e.height
    ensures IsRow(Piece(e, row), e, row)
  {
    hide Subarray;
    RowInRange(e, row);
    SubarrayInside(e.pixels, row * e.width * 4, e.width * 4);
  }

  /** A point on the page has its three colours where they are looked for. */
  lemma ShownColour(buffer: seq<byte>, width: nat, height: nat, history: seq<Frame>, row: nat, column: nat)
    requires AllInBounds(history) && Shows(buffer, width, height, history) && row < height && column < width
    ensures var index := (row * width + column) * 4;
      var colour := Subarray(buffer, index, index + 3);
      |colour| == 3 && forall c: nat | c < 3 :: colour[c] == Colour(history, row, column, c)
  {
    var index := (row * width + column) * 4;
    ShownAt(buffer, width, height, history, row, column, 0);
    ShownAt(buffer, width, height, history, row, column, 1);
    ShownAt(buffer, width, height, history, row, column, 2);
    assert Subarray(buffer, index, index + 3) == [buffer[index], buffer[index + 1], buffer[index + 2]];
  }

  lemma ShownAt(buffer: seq<byte>, width: nat, height: nat, history: seq<Frame>, row: nat, column: nat, channel: nat)
    requires AllInBounds(history) && Shows(buffer, width, height, history)
    requires row < height && column < width && channel < 4
    ensures (row * width + column) * 4 + channel < |buffer|
    ensures buffer[(row * width + column) * 4 + channel] == Colour(history, row, column, channel)
  {
    assert Index(width, row, column, channel) < |buffer|;
  }

  /** `subarray(begin, end)`: negative positions count from the end, and both are brought within the array. */
  function Subarray(s: seq<byte>, begin: int, end: int): seq<byte> {
    var from, to := Within(begin, |s|), Within(end, |s|);
    if from <= to then s[from..to] else []
  }

  lemma SubarrayIs(s: seq<byte>, begin: int, end: int)
    ensures var from, to, r := Within(begin, |s|), Within(end, |s|), Subarray(s, begin, end);
      |r| == (if from <= to then to - from else 0) && forall i | 0 <= i < |r| :: r[i] == s[from + i]
  {
  }

  function Within(k: int, length: nat): (r: nat)
    ensures r <= length
    ensures var from := if k < 0 then length + k else k;
      r == from || (from < 0 && r == 0) || (from > length && r == length)
  {
    if k > length then length else if k >= 0 then k else if k + length >= 0 then k + length else 0
  }

  /** The row of the event's pixels, shorter when the event has too few. */
  function Piece(e: Frame, row: nat): seq<byte> {
    var from := row * e.width * 4;
    Subarray(e.pixels, from, from + e.width * 4)
  }

  /** Whether `set` takes the row where it goes; otherwise it throws. */
  predicate RowFits(e: Frame, row: nat) {
    Index(e.frameWidth, e.y + row, e.x, 0) + |Piece(e, row)| <= SizeOf(e.frameWidth, e.frameHeight)
  }

  /** How many of the `length` bytes from `from` on there are. */
  function Had(all: nat, from: nat, length: nat): nat {
    if all <= from then 0 else if all < from + length then all - from else length
  }

  lemma SubarrayHas(s: seq<byte>, from: nat, length: nat)
    ensures |Subarray(s, from, from + length)| == Had(|s|, from, length)
  {
  }

  /** It does when what the event has of that row's bytes ends within the page. */
  lemma RowFitsExactly(e: Frame, row: nat, from: nat)
    requires from == row * e.width * 4
    ensures RowFits(e, row) <==>
      Index(e.frameWidth, e.y + row, e.x, 0) + Had(|e.pixels|, from, e.width * 4) <= SizeOf(e.frameWidth, e.frameHeight)
  {
    hide Subarray, Had, Index, SizeOf;
    SubarrayHas(e.pixels, from, e.width * 4);
  }

  lemma RowInBoundsFits(e: Frame, row: nat)
    requires InBounds(e) && row < e.height
    ensures RowFits(e, row)
  {
    RowInRange(e, row);
  }

  /** `Math.round`: to the nearest integer, halves upward. */
  function Round(v: real): (r: int)
    ensures r as real - 0.5 <= v < r as real + 0.5
  {
    (v + 0.5).Floor
  }

  function SizeOf(width: nat, height: nat): nat {
    height * width * 4
  }

  lemma BlackShows(buffer: seq<byte>, before: seq<Frame>, e: Frame)
    requires AllInBounds(before) && InBounds(e)
    requires before != [] ==> !SameSize(before[|before| - 1], e)
    requires |buffer| == SizeOf(e.frameWidth, e.frameHeight) && forall i | 0 <= i < |buffer| :: buffer[i] == 0
    ensures PartlyShows(buffer, before, e, 0)
  {
    forall row: nat, column: nat, channel: nat | row < e.frameHeight && column < e.frameWidth && channel < 4
      ensures Index(e.frameWidth, row, column, channel) < |buffer|
    {
      IndexInRange(e.frameWidth, e.frameHeight, row, column, channel);
    }
  }

  lemma KeptShows(buffer: seq<byte>, before: seq<Frame>, e: Frame)
    requires AllInBounds(before) && InBounds(e)
    requires Shows(buffer, e.frameWidth, e.frameHeight, before)
    requires before == [] ==> e.frameWidth == 0 && e.frameHeight == 0
    requires before != [] ==> SameSize(before[|before| - 1], e)
    ensures PartlyShows(buffer, before, e, 0)
  {
  }

  lemma WholeFrameShows(buffer: seq<byte>, before: seq<Frame>, e: Frame)
    requires AllInBounds(before) && InBounds(e) && PartlyShows(buffer, before, e, e.height)
    ensures AllInBounds(before + [e])
    ensures Shows(buffer, e.frameWidth, e.frameHeight, before + [e])
  {
    var history := before + [e];
    assert history[..|history| - 1] == before;
    forall row: nat, column: nat, channel: nat | row < e.frameHeight && column < e.frameWidth && channel < 4
      ensures Point(before, e, e.height, row, column, channel) == Colour(history, row, column, channel)
    {
    }
  }
}
