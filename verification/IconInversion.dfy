/**
 The Nightly icon writer and its check in scripts/generate-nightly-icons.swift:
 colours inverted in place in a byte array whose rows may be longer than their pixels.
 */
module IconInversion {
  import opened Prelude

  /** A decoded image; `rgba8` says that its layout is unassociated RGBA, a byte a channel. */
  datatype Image = Image(
    width: nat, height: nat, bytesPerRow: nat, rgba8: bool, data: seq<byte>, density: (int, int))

  datatype Failure = Layout | Dimensions | Silhouette | Colour | Representations | Lost

  const LARGEST: nat := 1024

  /** What Core Graphics promises of an image: a row is at least its pixels long. */
  predicate Sound(image: Image) { image.bytesPerRow >= 4 * image.width }

  predicate Readable(image: Image) {
    && image.rgba8 && 0 < image.width <= LARGEST && 0 < image.height <= LARGEST
    && |image.data| >= image.bytesPerRow * image.height
  }

  /** Where the pixel in row `y`, column `x` starts. */
  function At(bytesPerRow: nat, y: nat, x: nat): nat {
    y * bytesPerRow + x * 4
  }

  // ---------------------------------------------------------------- inversion

  /** The row byte `k` lies in, and how far along it. */
  function Row(bytesPerRow: nat, k: nat): nat
    requires bytesPerRow > 0
  {
    k / bytesPerRow
  }

  function Column(bytesPerRow: nat, k: nat): (column: nat)
    requires bytesPerRow > 0
    ensures column < bytesPerRow && k == Row(bytesPerRow, k) * bytesPerRow + column
  {
    k % bytesPerRow
  }

  /** Whether byte `k` is a red, green or blue one of some pixel: neither alpha nor padding. */
  predicate IsColour(image: Image, k: nat)
    requires image.bytesPerRow > 0
  {
    var column := Column(image.bytesPerRow, k);
    Row(image.bytesPerRow, k) < image.height && column < 4 * image.width && column % 4 < 3
  }

  function InvertedByte(image: Image, bytes: seq<byte>, k: nat): byte
    requires image.bytesPerRow > 0 && k < |bytes|
  {
    if IsColour(image, k) then 255 - bytes[k] else bytes[k]
  }

  function InvertedBytes(image: Image, bytes: seq<byte>): seq<byte>
    requires image.bytesPerRow > 0
  {
    seq(|bytes|, k requires 0 <= k < |bytes| => InvertedByte(image, bytes, k))
  }

  function Inverted(image: Image): Result<Image, Failure>
    requires Sound(image)
  {
    if Readable(image) then Ok(image.(data := InvertedBytes(image, image.data))) else Err(Layout)
  }

  lemma Times(a: int, b: nat)
    requires a >= 1
    ensures a * b >= b
  {
  }

  lemma RowOf(bytesPerRow: nat, y: nat, column: nat)
    requires column < bytesPerRow
    ensures Row(bytesPerRow, y * bytesPerRow + column) == y && Column(bytesPerRow, y * bytesPerRow + column) == column
  {
    var k := y * bytesPerRow + column;
    var q, r := Row(bytesPerRow, k), Column(bytesPerRow, k);
    assert (y - q) * bytesPerRow == r - column;
    assert (q - y) * bytesPerRow == column - r;
    if q < y { Times(y - q, bytesPerRow); }
    if q > y { Times(q - y, bytesPerRow); }
  }

  lemma RowsGrow(image: Image, row: nat)
    requires row < image.height
    ensures (row + 1) * image.bytesPerRow <= image.height * image.bytesPerRow
    ensures (row + 1) * image.bytesPerRow == row * image.bytesPerRow + image.bytesPerRow
  {
  }

  /** The four bytes of a pixel lie within the data. */
  lemma PixelFits(image: Image, y: nat, x: nat)
    requires Sound(image) && Readable(image) && y < image.height && x < image.width
    ensures At(image.bytesPerRow, y, x) + 3 < |image.data|
  {
    RowsGrow(image, y);
  }

  ghost function Colours(image: Image): iset<int>
    requires image.bytesPerRow > 0
  {
    iset k: int | k >= 0 && IsColour(image, k)
  }

  lemma ColourAtColumn(image: Image, y: nat, column: nat)
    requires y < image.height && column < image.bytesPerRow
    ensures y * image.bytesPerRow + column in Colours(image) <==> column < 4 * image.width && column % 4 < 3
  {
    RowOf(image.bytesPerRow, y, column);
  }

  lemma ChannelColour(image: Image, y: nat, x: nat, channel: nat)
    requires Sound(image) && Readable(image) && y < image.height && x < image.width && channel < 4
    ensures At(image.bytesPerRow, y, x) + channel in Colours(image) <==> channel < 3
  {
    var column := x * 4 + channel;
    assert column < 4 * image.width && column % 4 == channel;
    ColourAtColumn(image, y, column);
  }

  /** Of the four bytes of a pixel the first three are colours. */
  lemma PixelColours(image: Image, y: nat, x: nat)
    requires Sound(image) && Readable(image) && y < image.height && x < image.width
    ensures var at := At(image.bytesPerRow, y, x);
            at in Colours(image) && at + 1 in Colours(image) && at + 2 in Colours(image) && at + 3 !in Colours(image)
  {
    ChannelColour(image, y, x, 0);
    ChannelColour(image, y, x, 1);
    ChannelColour(image, y, x, 2);
    ChannelColour(image, y, x, 3);
  }

  lemma PaddingIsNoColour(image: Image, y: nat, k: int)
    requires Sound(image) && Readable(image) && y < image.height
    requires At(image.bytesPerRow, y, image.width) <= k < At(image.bytesPerRow, y + 1, 0)
    ensures k !in Colours(image)
  {
    RowsGrow(image, y);
    ColourAtColumn(image, y, k - y * image.bytesPerRow);
  }

  lemma NoColourBelowTheRows(image: Image, k: int)
    requires Sound(image) && Readable(image) && k >= At(image.bytesPerRow, image.height, 0)
    ensures k !in Colours(image)
  {
    var row := Row(image.bytesPerRow, k);
    if row < image.height { RowsGrow(image, row); }
  }

  /** The colours below `bound` are inverted, everything else is as it was. */
  ghost predicate InvertedBelow(colours: iset<int>, was: seq<byte>, bytes: seq<byte>, bound: int) {
    |bytes| == |was| && forall k :: 0 <= k < |was| ==>
      bytes[k] == if k < bound && k in colours then 255 - was[k] else was[k]
  }

  /** The loop over the channels of the pixel at `offset`. */
  method InvertPixel(bytes: array<byte>, offset: nat, ghost colours: iset<int>, ghost was: seq<byte>)
    requires offset + 3 < bytes.Length
    requires offset in colours && offset + 1 in colours && offset + 2 in colours && offset + 3 !in colours
    requires InvertedBelow(colours, was, bytes[..], offset)
    modifies bytes
    ensures InvertedBelow(colours, was, bytes[..], offset + 4)
  {
    for channel := 0 to 3
      invariant InvertedBelow(colours, was, bytes[..], offset + channel)
    {
      bytes[offset + channel] := 255 - bytes[offset + channel];
    }
  }

  /** The loop over a row; its padding is passed over. */
  method InvertRow(bytes: array<byte>, image: Image, y: nat)
    requires Sound(image) && Readable(image) && y < image.height && bytes.Length == |image.data|
    requires InvertedBelow(Colours(image), image.data, bytes[..], At(image.bytesPerRow, y, 0))
    modifies bytes
    ensures InvertedBelow(Colours(image), image.data, bytes[..], At(image.bytesPerRow, y + 1, 0))
  {
    ghost var colours := Colours(image);
    var start := y * image.bytesPerRow;
    for x := 0 to image.width
      invariant InvertedBelow(colours, image.data, bytes[..], start + x * 4)
    {
      PixelFits(image, y, x);
      PixelColours(image, y, x);
      InvertPixel(bytes, start + x * 4, colours, image.data);
    }
    RowsGrow(image, y);
    forall k | start + image.width * 4 <= k < start + image.bytesPerRow
      ensures k !in colours
    {
      PaddingIsNoColour(image, y, k);
    }
  }

  lemma DoneIsInverted(image: Image, bytes: seq<byte>)
    requires Sound(image) && Readable(image)
    requires InvertedBelow(Colours(image), image.data, bytes, At(image.bytesPerRow, image.height, 0))
    ensures bytes == InvertedBytes(image, image.data)
  {
    forall k | At(image.bytesPerRow, image.height, 0) <= k
      ensures k !in Colours(image)
    {
      NoColourBelowTheRows(image, k);
    }
  }

  method InvertRows(bytes: array<byte>, image: Image)
    requires Sound(image) && Readable(image) && bytes[..] == image.data
    modifies bytes
    ensures InvertedBelow(Colours(image), image.data, bytes[..], At(image.bytesPerRow, image.height, 0))
  {
    for y := 0 to image.height
      invariant InvertedBelow(Colours(image), image.data, bytes[..], At(image.bytesPerRow, y, 0))
    {
      InvertRow(bytes, image, y);
    }
  }

  method Invert(image: Image) returns (result: Result<Image, Failure>)
    requires Sound(image)
    ensures result == Inverted(image)
    ensures result.Ok? <==>
      && image.rgba8 && 1 <= image.width <= 1024 && 1 <= image.height <= 1024
      && |image.data| >= image.bytesPerRow * image.height
  {
    if !Readable(image) { return Err(Layout); }
    var data := image.data;
    var bytes := new byte[|data|](i requires 0 <= i < |data| => data[i]);
    assert bytes[..] == data;
    InvertRows(bytes, image);
    DoneIsInverted(image, bytes[..]);
    return Ok(image.(data := bytes[..]));
  }

  /** Inverting an inverted image gives the image back, padding and all. */
  lemma TwiceIsNothing(image: Image)
    requires Sound(image) && Readable(image)
    ensures Readable(Inverted(image).value) && Inverted(Inverted(image).value) == Ok(image)
  {
    var once := InvertedBytes(image, image.data);
    var other := image.(data := once);
    assert forall k: nat :: IsColour(other, k) == IsColour(image, k);
    assert InvertedBytes(other, once) == image.data;
  }

  /** The bytes of each pixel, from the inversion: alpha is kept, each colour is its complement. */
  lemma PixelsInverted(image: Image, y: nat, x: nat)
    requires Sound(image) && Readable(image) && y < image.height && x < image.width
    ensures var at := At(image.bytesPerRow, y, x);
            var after := Inverted(image).value.data;
            && at + 3 < |image.data| == |after| && after[at + 3] == image.data[at + 3]
            && Complements(image.data, at, after, at)
  {
    PixelFits(image, y, x);
    PixelColours(image, y, x);
  }

  predicate IsPixelByte(image: Image, k: nat, y: nat, x: nat) {
    y < image.height && x < image.width && At(image.bytesPerRow, y, x) <= k < At(image.bytesPerRow, y, x) + 3
  }

  lemma ColourIsOfAPixel(image: Image, k: nat)
    requires image.bytesPerRow > 0 && IsColour(image, k)
    ensures IsPixelByte(image, k, Row(image.bytesPerRow, k), Column(image.bytesPerRow, k) / 4)
  {
  }

  /** Every byte that an inversion changes is a colour of a pixel: alpha and padding stay. */
  lemma OnlyColoursChange(image: Image, k: nat)
    requires Sound(image) && Readable(image) && k < |image.data|
    requires Inverted(image).value.data[k] != image.data[k]
    ensures IsPixelByte(image, k, Row(image.bytesPerRow, k), Column(image.bytesPerRow, k) / 4)
  {
    ChangedIsColour(image, k);
    ColourIsOfAPixel(image, k);
  }

  lemma ChangedIsColour(image: Image, k: nat)
    requires image.bytesPerRow > 0 && k < |image.data| && InvertedBytes(image, image.data)[k] != image.data[k]
    ensures IsColour(image, k)
  {
  }

  // ---------------------------------------------------------------- the check

  predicate Complement(a: byte, b: byte) { a as int + b as int == 255 }

  /** The three colours of the pixels at `a` and `b` are each other's complement. */
  predicate Complements(before: seq<byte>, a: nat, after: seq<byte>, b: nat)
    requires a + 3 < |before| && b + 3 < |after|
  {
    && Complement(before[a], after[b]) && Complement(before[a + 1], after[b + 1])
    && Complement(before[a + 2], after[b + 2])
  }

  /** One pixel as it should come out: alpha exact, and the colours complementary where they can be seen. */
  predicate PixelStands(before: seq<byte>, a: nat, after: seq<byte>, b: nat)
    requires a + 3 < |before| && b + 3 < |after|
  {
    before[a + 3] == after[b + 3] && (before[a + 3] > 0 ==> Complements(before, a, after, b))
  }

  /** What the check accepts, whatever the two row lengths. */
  ghost predicate Faithful(original: Image, result: Image) {
    && original.width == result.width && original.height == result.height
    && Readable(original) && Readable(result)
    && forall y: nat, x: nat :: y < original.height && x < original.width ==>
         PixelStandsAt(original, result, y, x)
  }

  predicate PixelStandsAt(original: Image, result: Image, y: nat, x: nat) {
    var a, b := At(original.bytesPerRow, y, x), At(result.bytesPerRow, y, x);
    a + 3 < |original.data| && b + 3 < |result.data| && PixelStands(original.data, a, result.data, b)
  }

  /** Whether the pixel in row `y`, column `x` fails the check, and over its alpha or over its colours. */
  predicate FailsAt(original: Image, result: Image, y: nat, x: nat, failure: Failure) {
    var a, b := At(original.bytesPerRow, y, x), At(result.bytesPerRow, y, x);
    && y < original.height && x < original.width && a + 3 < |original.data| && b + 3 < |result.data|
    && !PixelStands(original.data, a, result.data, b)
    && (failure == Silhouette <==> original.data[a + 3] != result.data[b + 3])
  }

  method VerifyPixel(before: seq<byte>, a: nat, after: seq<byte>, b: nat) returns (failure: Option<Failure>)
    requires a + 3 < |before| && b + 3 < |after|
    ensures failure.None? <==> PixelStands(before, a, after, b)
    ensures failure.Some? ==> failure.value in {Silhouette, Colour}
    ensures failure == Some(Silhouette) <==> before[a + 3] != after[b + 3]
  {
    if before[a + 3] != after[b + 3] { return Some(Silhouette); }
    if before[a + 3] > 0 {
      for channel := 0 to 3
        invariant channel > 0 ==> Complement(before[a], after[b])
        invariant channel > 1 ==> Complement(before[a + 1], after[b + 1])
        invariant channel > 2 ==> Complement(before[a + 2], after[b + 2])
      {
        if before[a + channel] as int + after[b + channel] as int != 255 { return Some(Colour); }
      }
    }
    return None;
  }

  method VerifyPixels(original: Image, result: Image) returns (pixels: Result<nat, Failure>)
    requires Sound(original) && Sound(result)
    ensures pixels.Ok? <==> Faithful(original, result)
    ensures pixels.Ok? ==> pixels.value == original.width * original.height
    ensures pixels.Ok? ==> original.rgba8 && result.rgba8 && 1 <= original.width <= 1024 && 1 <= original.height <= 1024
    ensures pixels == Err(Dimensions) <==> original.width != result.width || original.height != result.height
    ensures pixels.Err? ==> pixels.error in {Dimensions, Layout, Silhouette, Colour}
    ensures pixels == Err(Layout) <==>
      original.width == result.width && original.height == result.height && !(Readable(original) && Readable(result))
    ensures pixels == Err(Silhouette) || pixels == Err(Colour) ==>
      exists y: nat, x: nat :: FailsAt(original, result, y, x, pixels.error)
  {
    if original.width != result.width || original.height != result.height { return Err(Dimensions); }
    if !Readable(original) || !Readable(result) { return Err(Layout); }
    var before, after := original.data, result.data;
    for y := 0 to original.height
      invariant forall v: nat, x: nat :: v < y && x < original.width ==> PixelStandsAt(original, result, v, x)
    {
      for x := 0 to original.width
        invariant forall v: nat, u: nat :: v < y && u < original.width ==> PixelStandsAt(original, result, v, u)
        invariant forall u: nat :: u < x ==> PixelStandsAt(original, result, y, u)
      {
        PixelFits(original, y, x);
        PixelFits(result, y, x);
        var a := y * original.bytesPerRow + x * 4;
        var b := y * result.bytesPerRow + x * 4;
        var failure := VerifyPixel(before, a, after, b);
        if failure.Some? {
          assert !PixelStandsAt(original, result, y, x);
          assert FailsAt(original, result, y, x, failure.value);
          return Err(failure.value);
        }
      }
    }
    return Ok(original.width * original.height);
  }

  /** The check accepts every image together with its inverse. */
  lemma InverseIsFaithful(image: Image)
    requires Sound(image) && Readable(image)
    ensures Faithful(image, Inverted(image).value)
  {
    var result := Inverted(image).value;
    forall y: nat, x: nat | y < image.height && x < image.width
      ensures PixelStandsAt(image, result, y, x)
    {
      PixelsInverted(image, y, x);
    }
  }

  /** Two pixels complementary to the same one are the same. */
  lemma SameComplement(before: seq<byte>, a: nat, inverse: seq<byte>, after: seq<byte>, b: nat)
    requires a + 3 < |before| == |inverse| && b + 3 < |after|
    requires inverse[a + 3] == before[a + 3] && Complements(before, a, inverse, a) && PixelStands(before, a, after, b)
    ensures inverse[a + 3] == after[b + 3] && (after[b + 3] > 0 ==> inverse[a..a + 4] == after[b..b + 4])
  {
    FourBytes(inverse, a);
    FourBytes(after, b);
  }

  lemma FourBytes(data: seq<byte>, at: nat)
    requires at + 4 <= |data|
    ensures data[at..at + 4] == [data[at], data[at + 1], data[at + 2], data[at + 3]]
  {
  }

  /** And what it accepts shows, at every pixel that shows anything, exactly the inverse's bytes. */
  lemma FaithfulIsTheInverse(image: Image, result: Image, y: nat, x: nat)
    requires Sound(image) && Faithful(image, result) && y < image.height && x < image.width
    ensures var inverse := Inverted(image).value;
            var a, b := At(image.bytesPerRow, y, x), At(result.bytesPerRow, y, x);
            && a + 4 <= |inverse.data| && b + 4 <= |result.data|
            && inverse.data[a + 3] == result.data[b + 3]
            && (result.data[b + 3] > 0 ==> inverse.data[a..a + 4] == result.data[b..b + 4])
  {
    hide At, Sound, Complements, PixelStands;
    PixelsInverted(image, y, x);
    assert PixelStandsAt(image, result, y, x);
    SameComplement(image.data, At(image.bytesPerRow, y, x), Inverted(image).value.data,
                   result.data, At(result.bytesPerRow, y, x));
  }

  // ---------------------------------------------------------------- all representations

  /** What tells the representations of an icon apart: size and density. */
  function Key(image: Image): (nat, nat, (int, int)) {
    (image.width, image.height, image.density)
  }

  /** Exactly these: two images of one size but of different densities are two representations. */
  lemma KeysTellApart(a: Image, b: Image)
    ensures Key(a) == Key(b) <==>
      && a.width == b.width && a.height == b.height
      && a.density.0 == b.density.0 && a.density.1 == b.density.1
  {
  }

  /** The first image of `images` with the key. */
  function FirstWith(images: seq<Image>, key: (nat, nat, (int, int)), from: nat): (at: Option<nat>)
    requires from <= |images|
    ensures at.Some? ==> from <= at.value < |images| && Key(images[at.value]) == key
    ensures forall k: nat :: from <= k < |images| && (at.Some? ==> k < at.value) ==> Key(images[k]) != key
    decreases |images| - from
  {
    if from == |images| then None
    else if Key(images[from]) == key then Some(from)
    else FirstWith(images, key, from + 1)
  }

  function Area(images: seq<Image>): nat {
    if images == [] then 0
    else
      var last := images[|images| - 1];
      Area(images[..|images| - 1]) + last.width * last.height
  }

  /** The pixels of every image, each counted once. */
  lemma {:induction false} AreaAdds(a: seq<Image>, b: seq<Image>)
    ensures Area(a + b) == Area(a) + Area(b)
    ensures forall image :: Area([image]) == image.width * image.height
    decreases |b|
  {
    if b == [] {
      assert a + b == a;
    } else {
      var n := |b| - 1;
      assert (a + b)[..|a + b| - 1] == a + b[..n];
      AreaAdds(a, b[..n]);
    }
  }

  /** Whether representation `i` has a counterpart that passes the check. */
  ghost predicate Kept(originals: seq<Image>, results: seq<Image>, i: nat)
    requires i < |originals|
  {
    var found := FirstWith(results, Key(originals[i]), 0);
    found.Some? && Faithful(originals[i], results[found.value])
  }

  method Verify(originals: seq<Image>, results: seq<Image>, sameType: bool) returns (checked: Result<nat, Failure>)
    requires forall i :: 0 <= i < |originals| ==> Sound(originals[i])
    requires forall i :: 0 <= i < |results| ==> Sound(results[i])
    ensures checked.Ok? <==>
      sameType && |originals| == |results| && forall i: nat :: i < |originals| ==> Kept(originals, results, i)
    ensures checked.Ok? ==> checked.value == Area(originals)
    ensures checked == Err(Representations) <==> !sameType || |originals| != |results|
  {
    if !sameType || |originals| != |results| { return Err(Representations); }
    var total: nat := 0;
    for index := 0 to |originals|
      invariant forall i: nat :: i < index ==> Kept(originals, results, i)
      invariant total == Area(originals[..index])
    {
      assert originals[..index + 1][..index] == originals[..index];
      var found := FirstWith(results, Key(originals[index]), 0);
      if found.None? {
        assert !Kept(originals, results, index);
        return Err(Lost);
      }
      var pixels := VerifyPixels(originals[index], results[found.value]);
      if pixels.Err? {
        assert !Kept(originals, results, index);
        return Err(pixels.error);
      }
      total := total + pixels.value;
    }
    assert originals[..|originals|] == originals;
    return Ok(total);
  }

  /** What `generate` writes from images whose sizes and densities differ passes `verify`. */
  lemma GeneratedIsKept(originals: seq<Image>, results: seq<Image>, i: nat)
    requires |results| == |originals| && i < |originals|
    requires forall j :: 0 <= j < |originals| ==>
      Sound(originals[j]) && Inverted(originals[j]) == Ok(results[j])
    requires forall j, k :: 0 <= j < k < |originals| ==> Key(originals[j]) != Key(originals[k])
    ensures Kept(originals, results, i)
  {
    assert forall j :: 0 <= j < |originals| ==> Key(results[j]) == Key(originals[j]);
    assert FirstWith(results, Key(originals[i]), 0) == Some(i);
    InverseIsFaithful(originals[i]);
  }
}
