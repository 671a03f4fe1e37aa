/**
 * The tail of `convert_image_to_hex`, from the 8-bit grayscale image on:
 * one `//` header line, then one two-digit lowercase hex line per pixel in
 * row-major order. The companion of HexToImage, which reads such a file
 * back into the same image.
 */
module ImageToHex {
  import opened Wrappers
  import opened Text
  import opened HexCodec
  import opened Grid
  import opened HexToImage

  /** The header names the source image; it says 28x28 whatever the image. */
  function Header(imagePath: string): (h: string)
    ensures StartsWith(h, "//") && h[|h| - 1] == '\n'
  {
    var prefix := "// 28x28 Grayscale Image Data for ";
    assert (prefix + imagePath + "\n")[..2] == prefix[..2] == "//";
    prefix + imagePath + "\n"
  }

  /** The line written for one pixel: `format(pixel_val, '02x')` and a newline. */
  function PixelLine(v: nat): string
  {
    FormatHex(v, 2) + "\n"
  }

  /** lines is the file written for imagePath and these pixels in this order. */
  predicate IsImageHex(lines: seq<string>, imagePath: string, pixels: seq<nat>)
  {
    && |lines| == 1 + |pixels|
    && lines[0] == Header(imagePath)
    && forall k | 0 <= k < |pixels| :: lines[k + 1] == PixelLine(pixels[k])
  }

  /** The lines written to the output file for an already 8-bit image. */
  method ConvertImageToHex(image: seq<seq<nat>>, imagePath: string) returns (lines: seq<string>)
    ensures |lines| == 1 + |Flatten(image)|
    ensures IsImageHex(lines, imagePath, Flatten(image))
  {
    var flat := Flatten(image);
    var header := Header(imagePath);
    lines := [header];
    for k := 0 to |flat|
      invariant |lines| == 1 + k && lines[0] == header
      invariant forall j | 0 <= j < k :: lines[j + 1] == PixelLine(flat[j])
    {
      var line := PixelLine(flat[k]);
      lines := lines + [line];
      assert lines[k + 1] == line;
    }
  }

  /** The header starts with `//`, so the decoder skips it as a comment. */
  lemma HeaderIsComment(imagePath: string)
    ensures StartsWith(Header(imagePath), "//")
    ensures Classify(Header(imagePath)) == Comment
  {
    CommentLine(Header(imagePath));
  }

  /**
   * A pixel line is a hex token and a newline; the decoder reads v back
   * from it, and for a byte the token is exactly two lowercase digits.
   */
  lemma PixelLineDecodes(v: nat)
    ensures Classify(PixelLine(v)) == Pixel(v)
    ensures v < 256 ==>
              var t := PixelLine(v)[..2];
              && PixelLine(v) == t + "\n"
              && |t| == 2 && AllLowerHexDigits(t)
              && ParseHex(t) == Some(v)
  {
    var t := FormatHex(v, 2);
    FormatHexParses(v, 2);
    LowerAreHex(t);
    ValueLine(t);
    if v < 256 {
      ByteToken(v);
      assert PixelLine(v)[..2] == t;
    }
  }

  /** Data line k holds pixel (k / width, k % width): the flattening is row-major. */
  lemma RowMajorLines(lines: seq<string>, imagePath: string, image: seq<seq<nat>>,
                      height: nat, width: nat, k: nat)
    requires IsGrid(image, height, width) && IsImageHex(lines, imagePath, Flatten(image))
    requires k < height * width
    ensures width > 0 && k / width < height
    ensures k + 1 < |lines| && lines[k + 1] == PixelLine(image[k / width][k % width])
  {
    FlattenIndex(image, height, width, k);
  }

  /** Decoding the lines written for some pixels reads back exactly those pixels, with no warning. */
  lemma ImageHexDecodes(lines: seq<string>, imagePath: string, pixels: seq<nat>)
    requires IsImageHex(lines, imagePath, pixels)
    ensures LineValues(lines) == pixels
    ensures InvalidLines(lines) == []
  {
    var data := lines[1..];
    assert lines == [lines[0]] + data;
    HeaderIsComment(imagePath);
    forall k | 0 <= k < |data|
      ensures Classify(data[k]) == Pixel(pixels[k])
    {
      PixelLineDecodes(pixels[k]);
    }
    HeaderThenValues(lines[0], data, pixels);
  }

  /**
   * Round trip: the file written for a height x width image holds exactly
   * height * width values, and laying them out again gives the image.
   */
  lemma RoundTrip(lines: seq<string>, imagePath: string, image: seq<seq<nat>>, height: nat, width: nat)
    requires IsGrid(image, height, width) && IsImageHex(lines, imagePath, Flatten(image))
    ensures |LineValues(lines)| == width * height
    ensures Reshape(LineValues(lines), height, width) == image
    ensures InvalidLines(lines) == []
  {
    ImageHexDecodes(lines, imagePath, Flatten(image));
    var g: seq<seq<int>> := image;
    assert IsGrid(g, height, width);
    FlattenAsInt(image);
    ReshapeFlatten(g, height, width);
  }

  /** Flattening does not depend on whether the pixels are read as naturals or integers. */
  lemma {:induction false} FlattenAsInt(image: seq<seq<nat>>)
    ensures Flatten<int>(image) == Flatten<nat>(image)
  {
    if image != [] {
      FlattenAsInt(image[1..]);
    }
  }

  /** Writing an image and reading the file back with its dimensions returns the image, with no warning. */
  method EncodeThenDecode(image: seq<seq<nat>>, imagePath: string, height: nat, width: nat)
    returns (decoded: Result<seq<seq<int>>, DecodeError>, warnings: seq<string>)
    requires IsGrid(image, height, width)
    ensures decoded == Success(image) && warnings == []
  {
    var lines := ConvertImageToHex(image, imagePath);
    RoundTrip(lines, imagePath, image, height, width);
    decoded, warnings := ConvertHexToImage(Some(lines), width, height);
  }
}
