# fpga-cnn-accelerator: the hex codecs, in Dafny

The FPGA CNN accelerator reads its input image and its quantised weights
from Verilog-style hex files. The files hold one value per line, with `//`
comments between the values. Three Python scripts write and read them:

- `image_to_hex.py` turns an 8-bit grayscale image into such a file: a
  `//` header line, then one two-digit lowercase hex byte per pixel in
  row-major order.
- `hex_to_image.py` reads the file back. It skips blank lines and `//`
  comments, parses each remaining line with `int(line, 16)` and warns about
  lines that do not parse. It lays the values out as a height x width image
  when exactly height * width of them were read.
- `train_model.py`:
  - `export_weights_to_hex` writes the rounded convolution kernel and the
    two per-class dense weight columns as 8-bit two's-complement tokens
    (`format(w & 0xFF, '02x')`), and the two dense biases as 16-bit tokens
    (`format(b & 0xFFFF, '04x')`);
  - `preprocess_data` keeps the samples of two classes and relabels them
    0 and 1.

The model's modules:

- `Text`: Python's `strip()` and `startswith()`.
- `HexCodec`: the masks, `format(v, '0Nx')`, and `int(s, 16)` with its
  sign, `0x` prefix and underscore rules.
- `Grid`: `flatten()` and `reshape()`.
- `HexToImage`: the read loop, a method over the file's lines.
- `ImageToHex`: the write loop, a method producing the file's lines.
- `TrainModel`: the weight export, a method returning the files it wrote,
  and the label filter.

The proofs cover the following:

- Writing an image and decoding the file gives the image back, with no
  warning.
- Every weight and bias token decodes to its masked value. The signed
  8-bit (16-bit) reading recovers every weight (bias) in range.
- Masking equals reduction modulo 2^k and wraps silently.
- `int(s, 16)` reads what `format` writes. It ignores a `0x` prefix,
  honours a sign, reads two runs of digits joined by one underscore as
  the joined digits, and fails on a doubled underscore.
- Padding and comments never change what the decoder reads.
- Each line contributes its value at its own place.
- The label filter agrees with a one-sample-at-a-time reference definition.

Python's I/O is replaced by values:

- A file being read is the sequence of lines iterating over it yields.
  Each line keeps its terminator.
- A missing file is `None`.
- A file written is the lines of the text written to it, each with its
  terminator.
- The export's output files are a map from the file to its lines.
- The printed warnings are the returned list of invalid line texts.

Two points of the code's behaviour the model follows:

- The decoder does not insist on two-digit bytes. It accepts anything
  `int(line, 16)` accepts: more digits, a sign, a `0x` prefix,
  underscores. The model does the same.
- The encoder does no clamping of pixel values: it rounds and casts to
  `uint8`. That step precedes the modelled part, whose input is already a
  grid of bytes.

## Model

| member | source | states |
|---|---|---|
| Text.Strip | script/hex_to_image.py:24 | `line.strip()`: the line with the characters Python counts as whitespace removed from both ends |
| Text.StripIgnoresPadding | script/hex_to_image.py:24 | whitespace on either side of a line does not change its `strip()` |
| Text.StripUnpadded | script/hex_to_image.py:24 | a string with no whitespace at either end is its own `strip()` |
| Text.StartsWithSurvivesStrip | script/hex_to_image.py:24-25 | a prefix not bordered by whitespace is still a prefix after `strip()`, so a `//` line stays a comment |
| HexCodec.LowBits | script/train_model.py:49 | `x & (2^k - 1)` bit by bit on an unbounded two's-complement integer; the result is below 2^k; for the numpy int64 weights and biases this is the same result as int64 `&` |
| HexCodec.Mask8 | script/train_model.py:49 | `w & 0xFF` is the byte in [0, 256) congruent to w modulo 256, negatives included |
| HexCodec.Mask16 | script/train_model.py:87-88 | `b & 0xFFFF` is the value in [0, 65536) congruent to b modulo 65536 |
| HexCodec.LowBitsIsMod | script/train_model.py:49 | masking to k bits (`& 0xFF`, `& 0xFFFF`) is reduction modulo 2^k, negative values included |
| HexCodec.LowBitsWraps | script/train_model.py:49 | w and w + 2^k mask to the same bits: overflow wraps silently |
| HexCodec.LowBitsOfSmall | script/train_model.py:49 | a value that already fits in k bits is unchanged by the mask |
| HexCodec.SignRecovered | script/train_model.py:48-49 | every w in [-2^(k-1), 2^(k-1)) is recovered from its k-bit mask by the two's-complement reading |
| HexCodec.MasksAreLowOnes | script/train_model.py:49 | masking with the literal 0xFF (0xFFFF) is reduction modulo 0xFF + 1 (0xFFFF + 1), and those literals are the masks of 8 (16) low ones |
| HexCodec.Token8Decodes | script/train_model.py:49 | a weight token is two lowercase hex digits that `int(_, 16)` reads as `w % 256`, and a weight in [-128, 127] is recovered from them |
| HexCodec.Token8Wraps | script/train_model.py:49 | weights 256 apart are written identically |
| HexCodec.WeightTokenExamples | script/train_model.py:48-49 | -85 is written `ab` and 127 is written `7f` |
| HexCodec.Token16Decodes | script/train_model.py:87-88 | a bias token is four lowercase hex digits read as `b % 65536`, and a bias in [-32768, 32767] is recovered from them |
| HexCodec.Token16Wraps | script/train_model.py:87-88 | biases 65536 apart are written identically |
| HexCodec.ParseHex | script/hex_to_image.py:30 | `int(line, 16)`: an optional sign, an optional `0x`/`0X` with one optional underscore, then hex digits separated by single underscores; anything else is None (ValueError); its meaning is stated against the plain digit value by the lemmas below |
| HexCodec.GroupedValueOfDigits | script/hex_to_image.py:30 | without underscores, a run of hex digits reads as the number it spells |
| HexCodec.ParseHexOfDigits | script/hex_to_image.py:30 | `int(s, 16)` on a nonempty run of hex digits succeeds with the number it spells |
| HexCodec.NoPrefix | script/hex_to_image.py:30 | digits without a base prefix are read as they stand |
| HexCodec.PrefixIgnored | script/hex_to_image.py:30 | a `0x`/`0X` prefix, with or without one underscore after it, does not change the value |
| HexCodec.ParseHexSignAndPrefix | script/hex_to_image.py:30 | a sign and a base prefix before hex digits are accepted: `-0x1f` reads as -31 |
| HexCodec.UnderscoreBetween | script/hex_to_image.py:30 | one underscore between two runs of digits is accepted and ignored |
| HexCodec.DoubledUnderscore | script/hex_to_image.py:30 | the digit reader refuses two underscores in a row, whatever follows |
| HexCodec.UnderscoreAccepted | script/hex_to_image.py:30 | `int(_, 16)` reads two runs of hex digits with one `_` between them as the number the joined digits spell |
| HexCodec.DoubledUnderscoreFails | script/hex_to_image.py:30 | `int(_, 16)` fails on two runs of hex digits with `__` between them |
| HexCodec.FormatHex | script/image_to_hex.py:51 | `format(v, '0Nx')` is at least N lowercase hex digits that spell v |
| HexCodec.DigitsValueOfToHex | script/image_to_hex.py:51 | `format(v, 'x')` spells v |
| HexCodec.DigitsValueLeadingZeros | script/image_to_hex.py:51 | leading zeros do not change the value a digit string spells |
| HexCodec.ToHexLength | script/image_to_hex.py:51 | v < 16^n needs at most n digits |
| HexCodec.FormatHexParses | script/image_to_hex.py:51 | `int(format(v, '0Nx'), 16)` is v: the encoder's tokens decode to its values |
| HexCodec.FormatHexWidth | script/image_to_hex.py:51 | v < 16^N is written with exactly N characters |
| HexCodec.ByteToken | script/image_to_hex.py:51 | a byte is written as exactly two lowercase digits that read back as it |
| Grid.Reshape | script/hex_to_image.py:48 | `reshape((height, width))` of height * width values is a height x width grid |
| Grid.ReshapeAt | script/hex_to_image.py:48 | row r, column c of the reshaped grid is value r * width + c |
| Grid.FlattenReshape | script/hex_to_image.py:48 | flattening the reshaped grid gives back the values |
| Grid.FlattenLength | script/image_to_hex.py:45 | a height x width grid flattens to height * width values |
| Grid.FlattenAt | script/image_to_hex.py:45 | element (r, c) sits at position r * width + c of the flattening |
| Grid.FlattenIndex | script/image_to_hex.py:45 | position k of the flattening holds element (k / width, k % width) |
| Grid.ReshapeFlatten | script/image_to_hex.py:45 | reshaping the flattening of a height x width grid gives back the grid |
| HexToImage.ConvertHexToImage | script/hex_to_image.py:17-48 | a missing file fails with no warning; otherwise the warnings are the invalid lines, and the call fails exactly when the count of values read is not width * height (reporting both numbers); on success the image is a height x width grid whose flattening is the values read, in order |
| HexToImage.Classify | script/hex_to_image.py:24-34 | what the loop does with one line: after `strip()`, empty is skipped, a `//` start is a comment, a successful `int(_, 16)` is a value, anything else is warned about with the stripped text |
| HexToImage.LineValuesConcat | script/hex_to_image.py:22-31 | the values of two files one after the other are the values of each, in order |
| HexToImage.LineInContext | script/hex_to_image.py:22-34 | a value line contributes its value at its own place; a blank, comment or invalid line contributes nothing |
| HexToImage.PaddingIgnored | script/hex_to_image.py:24-25 | whitespace around a line changes neither its value nor whether it is a comment |
| HexToImage.CommentLine | script/hex_to_image.py:25-26 | a line starting with `//` is skipped as a comment |
| HexToImage.TokenLine | script/hex_to_image.py:24-34 | a bare non-comment token and its newline are a value line if `int(token, 16)` succeeds, else an invalid line carrying the token |
| HexToImage.TokenValueLine | script/hex_to_image.py:29-31 | a line holding a token that reads as v yields v, negative values included |
| HexToImage.ValueLine | script/hex_to_image.py:29-31 | a line holding a nonempty run of hex digits yields the number the digits spell |
| HexToImage.LineValuesOfPixels | script/hex_to_image.py:30-31 | lines that all yield values yield exactly those values, in order |
| HexToImage.CommentFirst | script/hex_to_image.py:25-26 | a leading comment adds neither a value nor a warning |
| HexToImage.HeaderThenValues | script/hex_to_image.py:22-31 | a comment line followed by value lines yields exactly their values and no warning |
| HexToImage.NoInvalidNoWarnings | script/hex_to_image.py:32-34 | a file with no invalid line produces no warning |
| ImageToHex.Header | script/image_to_hex.py:49 | the header line starts with `//` and ends with the newline |
| ImageToHex.ConvertImageToHex | script/image_to_hex.py:45-51 | the file is the header and then one `'02x'` line per pixel, in row-major order |
| ImageToHex.HeaderIsComment | script/image_to_hex.py:49 | the header starts with `//`, so the decoder skips it |
| ImageToHex.PixelLineDecodes | script/image_to_hex.py:51 | the decoder reads pixel v from its line; for a byte the token is two lowercase digits |
| ImageToHex.RowMajorLines | script/image_to_hex.py:45-51 | data line k holds pixel (k / width, k % width) |
| ImageToHex.ImageHexDecodes | script/image_to_hex.py:48-51 | decoding the written file reads back exactly the pixels, in order, with no warning |
| ImageToHex.RoundTrip | script/image_to_hex.py:45-51 | the file written for a height x width image holds height * width values, and reshaping them gives the image |
| ImageToHex.EncodeThenDecode | script/image_to_hex.py:45-51 | encoding an image and decoding the file with its dimensions succeeds with the same image and no warning |
| TrainModel.ExportFailure | script/train_model.py:40-77 | the export stops on a zero-size kernel, then on zero-size dense weights, then on a missing bias 0, then on a missing column 1, then on a missing bias 1, and completes exactly when the kernel is not empty, the dense weights have two columns and there are two biases |
| TrainModel.Column | script/train_model.py:67 | `dense_weights_int[:, c]`: entry c of each row, top to bottom |
| TrainModel.BiasFile | script/train_model.py:85-88 | the bias file's five lines: header, class 0 label, class 0 token, class 1 label, class 1 token |
| TrainModel.WriteWeightFile | script/train_model.py:45-50 | the file is the header and then one `format(w & 0xFF, '02x')` line per weight, in order |
| TrainModel.ExportWeightsToHex | script/train_model.py:40-88 | a zero-size kernel stops the export before any file is written; otherwise the kernel file holds the flattened kernel; zero-size dense weights stop it next; class 0's file exists exactly when the kernel and dense weights are not zero-size and bias 0 exists, and holds column 0; class 1's file and the bias file exist exactly when the export does not fail, and hold column 1 and the two biases; the error is the first failing step in the source's order |
| TrainModel.ColumnLines | script/train_model.py:67-72 | a class's weight file has one line per dense row, that row's entry in the class's column |
| TrainModel.WeightLineDecodes | script/train_model.py:49-50 | a weight line decodes to `w & 0xFF` as two lowercase hex digits |
| TrainModel.BiasLineDecodes | script/train_model.py:87-88 | a bias line decodes to `b & 0xFFFF` as four lowercase hex digits |
| TrainModel.WeightFileDecodes | script/train_model.py:45-50 | a weight file decodes to the masked weights in order with no warning, and every weight in [-128, 127] is recovered by the signed reading |
| TrainModel.TwoValueLayout | script/train_model.py:85-88 | comment, comment, value, comment, value lines decode to the two values in order |
| TrainModel.BiasFileDecodes | script/train_model.py:85-88 | the bias file decodes to the two masked biases, class 0 first, with no warning, and biases in [-32768, 32767] are recovered |
| TrainModel.CommentOfIsComment | script/train_model.py:46 | a line built as `//` + text is a comment to the decoder |
| TrainModel.HeadersAreComments | script/train_model.py:46-88 | every header and label line the export writes is skipped by the decoder |
| TrainModel.KeptIndices | script/train_model.py:97 | the kept positions are in range, hold one of the two classes, strictly increase, and include every such position |
| TrainModel.PreprocessData | script/train_model.py:97-101 | the kept samples are exactly those of the two classes, in order and paired with their images; a new label is 0 exactly when the old one was class_a, and 1 exactly when it was class_b and the classes differ |
| TrainModel.PreprocessMatchesReference | script/train_model.py:97-101 | the filter and relabelling agree with a one-sample-at-a-time reference on every input |
| TrainModel.CatsAndDogs | script/train_model.py:25-26 | with the configured classes 3 and 5, every kept sample is one of them, 3 is relabelled 0, 5 is relabelled 1, and no other label occurs |

## Left out

- The image and tensor pipeline before the integers: PIL loading, alpha
  removal, `rgb2gray`, `resize`, `np.round(... * 255).astype(np.uint8)`,
  and the float scaling of weights (`127 / max`, `* 100`) with its
  division by a zero maximum. This is floating-point work; the model
  starts from the resulting integer grids and tensors.
- Keras and TensorFlow: building and training the model, `get_weights`,
  the layer indices. The convolution bias is not exported, as in the code.
- File I/O, `print` output, the dummy test image and the `__main__`
  blocks. Files are sequences of lines, a missing input file is `None`,
  and PNG saving is not modelled.
- HexToImage.ConvertHexToImage: does not model the `np.array(..., dtype=np.uint8)`
  cast. Values above 255 or negative values are kept as read, where numpy
  would wrap them or refuse them.
- HexCodec.ParseHex: Unicode decimal digits other than ASCII, which `int` also
  accepts, are not modelled.
- ImageToHex.Header: the header always says 28x28, as the code does,
  whatever the image's size.
- ImageToHex.ConvertImageToHex: an image path containing `\n` or a lone
  `\r` (both end a line under Python's universal newlines) would split the
  header into two lines when the file is read back; the model keeps the
  header as one line, and ImageToHex.ImageHexDecodes, ImageToHex.RoundTrip
  and ImageToHex.EncodeThenDecode rely on that.
- HexToImage.ConvertHexToImage: width and height are natural numbers;
  numpy's behaviour for negative dimensions is not modelled.
- TrainModel.ExportWeightsToHex: the tensors are the already rounded
  integers, and the dense weights are required to be rectangular, as a
  numpy 2-D array is. A kernel or dense layer whose maximum magnitude is
  zero divides by zero in floating point; that is not modelled.
- TrainModel.PreprocessData: the labels are a flat sequence, which is what
  the function receives, since `main` flattens the CIFAR-10 labels of
  shape (N, 1) before calling it (script/train_model.py:116); the image
  preprocessing after the filter is floating point and not modelled.
- The printed notes about hardcoded biases in the Verilog.
