/**
 * Hiding a black/white mask in the red-channel least-significant bits of a cover
 * image, and making those bits visible again as a black/white image.
 */
module Steganography {
  import opened PyBin
  import opened Lsb
  import opened Images

  /** The decoded pixel for a source red value: black for a red LSB of 0, white for 1. */
  function DecodedPixel(red: Byte): (p: Pixel)
    ensures p == Black || p == White
    ensures p == Black <==> red % 2 == 0
    ensures p == White <==> red % 2 == 1
  {
    if ReadLsb(red) == 0 then Black else White
  }

  /**
   * The encoded pixel for a cover pixel and the mask's red value there: red LSB
   * forced to 0 under a mask value of exactly 0, to 1 under exactly 255, and the
   * pixel left as it is under any other mask value.
   */
  function EncodedPixel(p: Pixel, maskRed: Byte): (q: Pixel)
    ensures q.g == p.g && q.b == p.b
    ensures q.r / 2 == p.r / 2
    ensures maskRed == 0 ==> q.r % 2 == 0
    ensures maskRed == 255 ==> q.r % 2 == 1
    ensures maskRed != 0 && maskRed != 255 ==> q == p
  {
    if maskRed == 0 then p.(r := WriteLsb(p.r, 0))
    else if maskRed == 255 then p.(r := WriteLsb(p.r, 1))
    else p
  }

  /**
   * `decode_image`: a fresh image of the encoded image's size, each pixel black or
   * white after the red LSB of the same pixel, read as the last digit of `bin(red)`.
   */
  method DecodeImage(encoded: Image) returns (decoded: Image)
    ensures fresh(decoded)
    ensures decoded.Length0 == encoded.Length0 && decoded.Length1 == encoded.Length1
    ensures forall x, y :: 0 <= x < encoded.Length0 && 0 <= y < encoded.Length1 ==>
      decoded[x, y] == DecodedPixel(encoded[x, y].r)
  {
    var redChannel := GetChannel(encoded, Red);
    var xSize, ySize := encoded.Length0, encoded.Length1;
    // a new RGB image starts out black
    decoded := new Pixel[xSize, ySize]((x, y) => Black);
    for x := 0 to xSize
      modifies decoded
      invariant forall i, j :: 0 <= i < x && 0 <= j < ySize ==>
        decoded[i, j] == DecodedPixel(encoded[i, j].r)
    {
      for y := 0 to ySize
        modifies decoded
        invariant forall i, j :: 0 <= i < x && 0 <= j < ySize ==>
          decoded[i, j] == DecodedPixel(encoded[i, j].r)
        invariant forall j :: 0 <= j < y ==> decoded[x, j] == DecodedPixel(encoded[x, j].r)
      {
        var digit := LastBinDigit(redChannel[x, y]);
        if digit == Some(0) {
          decoded[x, y] := Black;
        }
        if digit == Some(1) {
          decoded[x, y] := White;
        }
      }
    }
  }

  /**
   * `encode_image` after the text has been rendered: `image` is the cover, changed in
   * place; `mask` is the rendered text, of the same size. Channels are read from
   * snapshots taken before the loop, and each red value is rebuilt from `bin(red)`
   * with its last digit replaced.
   */
  method EncodeImage(image: Image, mask: Image)
    requires mask.Length0 == image.Length0 && mask.Length1 == image.Length1
    requires mask != image
    modifies image
    ensures forall x, y :: 0 <= x < image.Length0 && 0 <= y < image.Length1 ==>
      image[x, y] == EncodedPixel(old(image[x, y]), old(mask[x, y]).r)
    ensures forall x, y :: 0 <= x < image.Length0 && 0 <= y < image.Length1 ==>
      image[x, y].g == old(image[x, y]).g && image[x, y].b == old(image[x, y]).b &&
      (mask[x, y].r == 0 ==> ReadLsb(image[x, y].r) == 0) &&
      (mask[x, y].r == 255 ==> ReadLsb(image[x, y].r) == 1) &&
      (mask[x, y].r != 0 && mask[x, y].r != 255 ==> image[x, y] == old(image[x, y]))
  {
    var maskRedChannel := GetChannel(mask, Red);
    var redChannel := GetChannel(image, Red);
    var greenChannel := GetChannel(image, Green);
    var blueChannel := GetChannel(image, Blue);
    assert forall i, j :: 0 <= i < image.Length0 && 0 <= j < image.Length1 ==>
      maskRedChannel[i, j] == old(mask[i, j]).r && redChannel[i, j] == old(image[i, j]).r &&
      greenChannel[i, j] == old(image[i, j]).g && blueChannel[i, j] == old(image[i, j]).b;
    for x := 0 to image.Length0
      modifies image
      invariant forall i, j :: 0 <= i < image.Length0 && 0 <= j < image.Length1 ==>
        image[i, j] == if i < x then EncodedPixel(old(image[i, j]), old(mask[i, j]).r) else old(image[i, j])
    {
      for y := 0 to image.Length1
        modifies image
        invariant forall i, j :: 0 <= i < image.Length0 && 0 <= j < image.Length1 ==>
          image[i, j] ==
            if i < x || (i == x && j < y) then EncodedPixel(old(image[i, j]), old(mask[i, j]).r)
            else old(image[i, j])
      {
        assert Pixel(redChannel[x, y], greenChannel[x, y], blueChannel[x, y]) == old(image[x, y]);
        EncodeAt(image, x, y, maskRedChannel[x, y], redChannel[x, y], greenChannel[x, y], blueChannel[x, y]);
      }
    }
  }

  /**
   * The body of the encoding loop at (x, y), given the snapshot values there: a mask
   * value of exactly 0 or exactly 255 rewrites the pixel with the red value rebuilt
   * from `bin(red)`; any other leaves it alone. No other pixel changes.
   */
  method EncodeAt(image: Image, x: nat, y: nat, maskRed: Byte, red: Byte, green: Byte, blue: Byte)
    requires x < image.Length0 && y < image.Length1
    modifies image
    ensures image[x, y] ==
      if maskRed == 0 || maskRed == 255 then EncodedPixel(Pixel(red, green, blue), maskRed)
      else old(image[x, y])
    ensures forall i, j :: 0 <= i < image.Length0 && 0 <= j < image.Length1 && (i != x || j != y) ==>
      image[i, j] == old(image[i, j])
  {
    if maskRed == 0 {
      var newRed := ReplaceLastBinDigit(red, '0').value;
      image[x, y] := Pixel(newRed, green, blue);
    }
    if maskRed == 255 {
      var newRed := ReplaceLastBinDigit(red, '1').value;
      image[x, y] := Pixel(newRed, green, blue);
    }
  }

  /** Decoding an encoded pixel gives back the mask pixel, for a black or white mask pixel. */
  lemma DecodeRecoversMask(p: Pixel, maskPixel: Pixel)
    requires maskPixel == Black || maskPixel == White
    ensures DecodedPixel(EncodedPixel(p, maskPixel.r).r) == maskPixel
  {
  }

  /** Encoding the same mask twice changes nothing the first encoding did not. */
  lemma EncodeIdempotent(p: Pixel, maskRed: Byte)
    ensures EncodedPixel(EncodedPixel(p, maskRed), maskRed) == EncodedPixel(p, maskRed)
  {
  }

  /**
   * Encoding a mask whose red values are all 0 or 255 into a cover and decoding the
   * result gives black where the mask's red is 0 and white where it is 255; so a
   * black/white mask is reproduced pixel for pixel.
   */
  method EncodeThenDecode(cover: Image, mask: Image) returns (decoded: Image)
    requires mask.Length0 == cover.Length0 && mask.Length1 == cover.Length1
    requires mask != cover
    requires forall x, y :: 0 <= x < mask.Length0 && 0 <= y < mask.Length1 ==>
      mask[x, y].r == 0 || mask[x, y].r == 255
    modifies cover
    ensures fresh(decoded)
    ensures decoded.Length0 == mask.Length0 && decoded.Length1 == mask.Length1
    ensures forall x, y :: 0 <= x < mask.Length0 && 0 <= y < mask.Length1 ==>
      decoded[x, y] == if mask[x, y].r == 0 then Black else White
    ensures forall x, y :: 0 <= x < mask.Length0 && 0 <= y < mask.Length1 ==>
      (mask[x, y] == Black || mask[x, y] == White) ==> decoded[x, y] == mask[x, y]
  {
    EncodeImage(cover, mask);
    decoded := DecodeImage(cover);
  }
}
