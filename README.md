# Red-channel LSB steganography, modelled in Dafny

This project models the core of a small image-steganography program. The program
hides a black/white mask (rendered text) in the least-significant bit (LSB) of the
red channel of a cover image. It also turns the red-channel LSBs of an image back
into a visible black/white image.

Both directions work on the text of Python's `bin(r)`:

- Decoding takes the last character of `bin(red)`, converts it with `int`, and
  paints the pixel black for 0 and white for 1.
- Encoding replaces the last character of `bin(red)` with `"0"` under a black mask
  pixel or `"1"` under a white one, then parses the text back with `int(_, 2)`.

The model keeps that string route. It proves the route equal to the arithmetic
primitives `v % 2` for reading and `v - v % 2 + b` for writing, and proves those
equal to the bitwise forms `x & 1` and `(x & 0xFE) | b`.

Modules, leaves first:

- `PyBin` (`pybin.dfy`) models `bin(v)`, `int(s, 2)` and `int(c)` as string functions
  with an `Option` result for Python's ValueError. It proves that `bin` text parses
  back to its number, and what parsing gives after the last digit is replaced.
- `Lsb` (`lsb.dfy`) holds the 8-bit `Byte` and the arithmetic `ReadLsb` and `WriteLsb`,
  with their bitwise forms. It also holds the program's string-based read
  (`LastBinDigit`) and write (`ReplaceLastBinDigit`), proved equal to them.
- `Images` (`images.dfy`) holds `Pixel`, `Black`, `White` and images as `array2<Pixel>`
  indexed `[x, y]`: `Length0` is the width and `Length1` the height. It also holds
  `GetChannel`, the channel snapshot taken by `split()` / `getchannel()`.
- `Steganography` (`steganography.dfy`) holds the per-pixel specifications
  `DecodedPixel` and `EncodedPixel`, and the two nested-loop methods `DecodeImage`
  (writes a fresh image) and `EncodeImage` (changes the cover in place). Their
  loop invariants say that visited pixels are transformed and the rest are
  untouched. The module ends with the round trip: encoding a mask whose red values
  are 0 or 255 and then decoding gives black where the mask's red is 0 and white
  where it is 255, so a black/white mask comes back unchanged.

A mask value other than exactly 0 or 255 is not an error. The code tests `== 0`
and `== 255` in two separate `if`s, so such a pixel is silently left as it was.
`EncodedPixel` and `EncodeImage` state that behaviour.

## Model

| member | source | states |
|---|---|---|
| `PyBin.Digits` | steganography.py:35-37 | the digits of `bin(v)` after `0b`: at least one, all `0`/`1`, the last one is the digit of `v % 2`, and the first is `0` exactly when v is 0, and there is exactly one digit exactly when v < 2 (so `bin(0)` is `0b0`) |
| `PyBin.Bin` | steganography.py:35-37 | Python's `bin(v)` for v >= 0, defined as `"0b"` followed by `Digits(v)`; a definition with no contract of its own, characterised by `PyBin.ParseBin` and `Lsb.LastBinDigit` |
| `PyBin.ParseInt2` | steganography.py:91-93 | Python's `int(s, 2)` on the text forms the program builds: an optional `0b`/`0B` prefix, then one or more binary digits, else None for ValueError; a definition with no contract of its own, characterised by `PyBin.ParseBin` and `PyBin.ParseBinWithLastReplaced` |
| `PyBin.ParseDigits` | steganography.py:91-93 | the digit part of `int(s, 2)`: one or more binary digits read in base 2, else None; a definition with no contract of its own, characterised by `PyBin.ParsePrefixed` and `PyBin.ParseBinWithLastReplaced` |
| `PyBin.DecimalValue` | steganography.py:37 | `int` of a one-character string succeeds exactly on a decimal digit, and gives 0 for `"0"` and 1 for `"1"` |
| `PyBin.BinaryValueOfDigits` | steganography.py:91-93 | reading the digits of `bin(v)` as base 2 gives v back |
| `PyBin.ParseBin` | steganography.py:91-93 | `int(bin(v), 2) == v` for every v >= 0 |
| `PyBin.ReplacedDigitsValue` | steganography.py:92 | the digits of `bin(v)` with the last one replaced by a binary digit d are all binary and are worth `2 * (v / 2) + d` |
| `PyBin.ParseBinWithLastReplaced` | steganography.py:91-92 | replacing the last character of `bin(v)` by a binary digit d and parsing in base 2 gives `2 * (v / 2) + d` |
| `PyBin.ParsePrefixed` | steganography.py:93 | with the `0b` prefix, `int(_, 2)` reads exactly the digits that follow it |
| `Lsb.ReadLsb` | steganography.py:37 | the least-significant bit of a byte, `v % 2`; a definition with no contract of its own, characterised by `Lsb.ReadLsbBitwise`, `Lsb.LastBinDigit` and `Lsb.WriteThenRead` |
| `Lsb.WriteLsb` | steganography.py:91-96 | the written value is a byte whose LSB is the requested bit, whose seven higher bits equal the input's, and which differs from the input by at most 1 |
| `Lsb.ReadLsbBitwise` | steganography.py:37 | the LSB read `v % 2` agrees with the bitwise `x & 1` for every 8-bit pattern |
| `Lsb.WriteLsbBitwise` | steganography.py:92 | the LSB write `v - v % 2 + b` agrees with the bitwise `(x & 0xFE) | b` for every 8-bit pattern and bit |
| `Lsb.WriteThenRead` | steganography.py:90-97 | reading back a written bit gives that bit; writing back the bit already there changes nothing; writing the same bit twice is the same as once |
| `Lsb.LastBinDigit` | steganography.py:35-37 | `int` of the last character of `bin(v)` succeeds for every byte, including 0, and is exactly `v % 2` |
| `Lsb.ReplaceLastBinDigit` | steganography.py:91-96 | for a byte v, the text of `bin(v)` with its last character set to `"0"` parses to `v - v % 2`, and with `"1"` to `v - v % 2 + 1` |
| `Images.GetChannel` | steganography.py:80-83 | a fresh single-channel copy of the same width and height, holding the chosen channel of every pixel |
| `Steganography.DecodedPixel` | steganography.py:37-40 | the decoded pixel is pure black or pure white: black exactly when the red LSB is 0, white exactly when it is 1 |
| `Steganography.EncodedPixel` | steganography.py:90-97 | green and blue are unchanged and so are the seven higher red bits; the red LSB is 0 under a mask value of 0 and 1 under a mask value of 255; under any other mask value the pixel is unchanged |
| `Steganography.DecodeImage` | steganography.py:25-40 | the result is a fresh image of the same width and height in which every in-range pixel is `DecodedPixel` of the source pixel's red value, computed through `bin` text |
| `Steganography.EncodeImage` | steganography.py:80-97 | every pixel of the cover becomes `EncodedPixel` of its old value and the mask's red value; green and blue are never changed; the red LSB is 0 under mask 0 and 1 under mask 255; any other mask value leaves the pixel as it was |
| `Steganography.EncodeAt` | steganography.py:90-97 | one loop step: a mask value of exactly 0 or 255 writes the pixel rebuilt from the snapshot values; any other value writes nothing; no other pixel changes |
| `Steganography.DecodeRecoversMask` | steganography.py:90-97 | decoding an encoded pixel gives the mask pixel back when the mask pixel is black or white |
| `Steganography.EncodeIdempotent` | steganography.py:90-97 | encoding a pixel a second time under the same mask value changes nothing more |
| `Steganography.EncodeThenDecode` | steganography.py:87-97 | for a mask of the cover's size whose red values are all 0 or 255, encoding the cover and then decoding it gives a fresh image that is black where the mask's red is 0 and white where it is 255; where the mask pixel is black or white, the decoded pixel equals it |

## Left out

- Text rendering (`write_text`, steganography.py:45-64) is not modelled. It relies on the imaging library's default bitmap font, its text drawing and `textwrap.wrap`, none of which is visible here. The rendered mask is an input image of the cover's size instead.
- Opening and saving image files, the fixed default paths and the demo entry point are left out. They are I/O and configuration. An image is an in-memory `array2<Pixel>`.
- Image formats and modes other than 8-bit RGB are left out, and so is any format decoding (JPEG, PNG). These are codec behaviour.
- `PyBin.ParseInt2` accepts an optional `0b`/`0B` prefix and one or more binary digits. Python's `int(s, 2)` also accepts surrounding whitespace, a sign, underscores between digits and non-ASCII Unicode decimal digits. None of these arises from `bin` output with its last character set to `"0"` or `"1"`, the only text the program parses, so they are not modelled, and the model's None for such text is not Python's behaviour.
- `PyBin.ParseBinWithLastReplaced` and `Lsb.ReplaceLastBinDigit` state nothing about a replacement character other than `0` or `1`: Python would accept some of those (`int("0b1 ", 2)` is 1), which the model's `ParseInt2` does not, and the program never writes one.
- `PyBin.DecimalValue` accepts only the ASCII digits. Python's `int` also accepts other Unicode decimal digits, which never occur in `bin` output.
- `PyBin.Bin` covers only v >= 0. Python's `bin` of a negative number (`-0b…`) cannot occur for channel values.
- The imaging library's `putpixel` range handling is not modelled. Every value written is proved to be a byte.
- `Steganography.EncodeImage` requires the mask and the cover to be different images of the same size. The program guarantees both, because the mask is a new image created at the cover's size.
- The program converts the last character of `bin(red)` twice per pixel while decoding. The model converts it once, because the conversion is pure and both calls give the same value.
- The unused per-pixel length `pixel_bits` in the encoding loop (steganography.py:89) is not modelled.
