/**
 * RGB images as the program sees them through the imaging library: a width x height
 * grid indexed (x, y), each pixel three 8-bit channel values.
 */
module Images {
  import opened Lsb

  datatype Pixel = Pixel(r: Byte, g: Byte, b: Byte)

  const Black := Pixel(0, 0, 0)
  const White := Pixel(255, 255, 255)

  /** Length0 is the width (x), Length1 the height (y). */
  type Image = array2<Pixel>

  datatype Channel = Red | Green | Blue

  function ChannelValue(p: Pixel, c: Channel): Byte {
    match c
    case Red => p.r
    case Green => p.g
    case Blue => p.b
  }

  /** `split()[k]` / `getchannel(k)`: a separate single-channel copy of the image, of the same size. */
  method GetChannel(img: Image, c: Channel) returns (plane: array2<Byte>)
    ensures fresh(plane)
    ensures plane.Length0 == img.Length0 && plane.Length1 == img.Length1
    ensures forall x, y :: 0 <= x < img.Length0 && 0 <= y < img.Length1 ==>
      plane[x, y] == ChannelValue(img[x, y], c)
  {
    plane := new Byte[img.Length0, img.Length1](
      (x, y) requires 0 <= x < img.Length0 && 0 <= y < img.Length1 reads img =>
        ChannelValue(img[x, y], c));
  }
}
