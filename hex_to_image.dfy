/**
 * `convert_hex_to_image`: read a Verilog-style hex file, one value per
 * line, skipping blank lines, `//` comments and lines that are not hex,
 * and lay the values out as a height x width image when, and only when,
 * exactly height * width of them were read.
 */
module HexToImage {
  import opened Wrappers
  import opened Text
  import opened HexCodec
  import opened Grid

  /** What the read loop does with one line of the file. */
  datatype LineKind =
    | Blank                   // empty after strip(): skipped
    | Comment                 // starts with `//` after strip(): skipped
    | Pixel(value: int)       // parsed by int(line, 16): appended
    | Invalid(text: string)   // int(line, 16) raised ValueError: warned about and skipped

  function Classify(line: string): LineKind
  {
    var t := Strip(line);
    if t == [] then Blank
    else if StartsWith(t, "//") then Comment
    else if ParseHex(t).Some? then Pixel(ParseHex(t).value)
    else Invalid(t)
  }

  /** The kind of every line of a file, in order. */
  function Kinds(lines: seq<string>): (ks: seq<LineKind>)
    ensures |ks| == |lines|
  {
    seq(|lines|, i requires 0 <= i < |lines| => Classify(lines[i]))
  }

  /** The values lines of these kinds add to `pixel_values`, in order. */
  function PixelValues(ks: seq<LineKind>): seq<int>
  {
    if ks == [] then []
    else PixelValues(ks[..|ks| - 1]) + (if ks[|ks| - 1].Pixel? then [ks[|ks| - 1].value] else [])
  }

  /** The texts warned about for lines of these kinds, in order. */
  function Warnings(ks: seq<LineKind>): seq<string>
  {
    if ks == [] then []
    else Warnings(ks[..|ks| - 1]) + (if ks[|ks| - 1].Invalid? then [ks[|ks| - 1].text] else [])
  }

  /** `pixel_values` after the read loop has consumed lines. */
  function LineValues(lines: seq<string>): seq<int>
  {
    PixelValues(Kinds(lines))
  }

  /** The invalid lines warned about while consuming lines. */
  function InvalidLines(lines: seq<string>): seq<string>
  {
    Warnings(Kinds(lines))
  }

  datatype DecodeError =
    | NotFound                                // the hex file could not be opened
    | ShapeMismatch(expected: nat, found: nat) // width * height versus values read

  /**
   * The hex file is given as the lines iterating over it yields, or None
   * when opening it raised FileNotFoundError. On success the result is the
   * image array that is then saved; the warnings are the invalid lines.
   */
  method ConvertHexToImage(file: Option<seq<string>>, width: nat, height: nat)
    returns (image: Result<seq<seq<int>>, DecodeError>, warnings: seq<string>)
    ensures file.None? ==> image == Failure(NotFound) && warnings == []
    ensures file.Some? ==> warnings == InvalidLines(file.value)
    ensures file.Some? ==> (image.Failure? <==> |LineValues(file.value)| != width * height)
    ensures file.Some? && image.Failure? ==>
              image.error == ShapeMismatch(width * height, |LineValues(file.value)|)
    ensures image.Success? ==>
              && file.Some?
              && |LineValues(file.value)| == width * height
              && image.value == Reshape(LineValues(file.value), height, width)
              && IsGrid(image.value, height, width)
              && Flatten(image.value) == LineValues(file.value)
  {
    if file.None? {
      return Failure(NotFound), [];
    }
    var lines := file.value;
    var pixels: seq<int> := [];
    warnings := [];
    for i := 0 to |lines|
      invariant pixels == LineValues(lines[..i])
      invariant warnings == InvalidLines(lines[..i])
    {
      assert lines[..i + 1] == lines[..i] + [lines[i]];
      KindsSnoc(lines[..i], lines[i]);
      var line := Strip(lines[i]);
      if line == [] || StartsWith(line, "//") {
        assert Classify(lines[i]).Blank? || Classify(lines[i]).Comment?;
        continue;
      }
      match ParseHex(line)
      case Some(v) =>
        assert Classify(lines[i]) == Pixel(v);
        pixels := pixels + [v];
      case None =>
        assert Classify(lines[i]) == Invalid(line);
        warnings := warnings + [line];
    }
    assert lines[..|lines|] == lines;
    var expected := width * height;
    if |pixels| != expected {
      return Failure(ShapeMismatch(expected, |pixels|)), warnings;
    }
    image := Success(Reshape(pixels, height, width));
    FlattenReshape(pixels, height, width);
  }

  lemma KindsSnoc(done: seq<string>, line: string)
    ensures Kinds(done + [line]) == Kinds(done) + [Classify(line)]
    ensures var ks := Kinds(done + [line]); ks[..|ks| - 1] == Kinds(done) && ks[|ks| - 1] == Classify(line)
  {
    assert Kinds(done + [line]) == Kinds(done) + [Classify(line)];
  }

  lemma KindsCons(line: string, rest: seq<string>)
    ensures Kinds([line] + rest) == [Classify(line)] + Kinds(rest)
  {
    assert Kinds([line] + rest) == [Classify(line)] + Kinds(rest);
  }

  // ---------------------------------------------------------------------
  // Properties of the line rules
  // ---------------------------------------------------------------------

  lemma KindsConcat(a: seq<string>, b: seq<string>)
    ensures Kinds(a + b) == Kinds(a) + Kinds(b)
  {
  }

  lemma {:induction false} PixelValuesConcat(a: seq<LineKind>, b: seq<LineKind>)
    ensures PixelValues(a + b) == PixelValues(a) + PixelValues(b)
    decreases |b|
  {
    if b == [] {
      assert a + b == a;
    } else {
      var b', last := b[..|b| - 1], b[|b| - 1];
      assert (a + b)[..|a + b| - 1] == a + b' && (a + b)[|a + b| - 1] == last;
      PixelValuesConcat(a, b');
    }
  }

  /** The values of two files one after the other are the values of each, in order. */
  lemma LineValuesConcat(a: seq<string>, b: seq<string>)
    ensures LineValues(a + b) == LineValues(a) + LineValues(b)
  {
    KindsConcat(a, b);
    PixelValuesConcat(Kinds(a), Kinds(b));
  }

  /**
   * Each line contributes its own value, or nothing, at its own place:
   * blank, comment and invalid lines add nothing, and the values keep the
   * order of their lines.
   */
  lemma LineInContext(a: seq<string>, line: string, b: seq<string>)
    ensures Classify(line).Pixel? ==>
              LineValues(a + [line] + b) == LineValues(a) + [Classify(line).value] + LineValues(b)
    ensures !Classify(line).Pixel? ==> LineValues(a + [line] + b) == LineValues(a + b)
  {
    var k := Classify(line);
    LineValuesConcat(a + [line], b);
    LineValuesConcat(a, [line]);
    LineValuesConcat(a, b);
    assert Kinds([line]) == [k];
    assert [k][..0] == [];
    assert PixelValues([k]) == if k.Pixel? then [k.value] else [];
  }

  /** Leading and trailing whitespace changes neither a line's value nor whether it is a comment. */
  lemma PaddingIgnored(p: string, s: string, q: string)
    requires AllSpace(p) && AllSpace(q)
    ensures Classify(p + s + q) == Classify(s)
  {
    StripIgnoresPadding(p, s, q);
  }

  /** A line that starts with `//` is a comment. */
  lemma CommentLine(line: string)
    requires StartsWith(line, "//")
    ensures Classify(line) == Comment
  {
    StartsWithSurvivesStrip(line, "//");
  }

  /**
   * A line holding a token that has no whitespace at either end and is not
   * a comment, followed by a newline, is classified by the token alone.
   */
  lemma TokenLine(t: string)
    requires t != [] && !IsSpace(t[0]) && !IsSpace(t[|t| - 1]) && !StartsWith(t, "//")
    ensures Classify(t + "\n") == if ParseHex(t).Some? then Pixel(ParseHex(t).value) else Invalid(t)
  {
    assert AllSpace("\n");
    StripIgnoresPadding([], t, "\n");
    assert [] + t + "\n" == t + "\n";
    StripUnpadded(t);
  }

  /**
   * A token that does not start with `/` or whitespace and reads as v
   * yields v; with ParseHexSignAndPrefix, a line such as `-0x1f` puts the
   * negative value -31 into the pixel list.
   */
  lemma TokenValueLine(t: string, v: int)
    requires t != [] && t[0] != '/' && !IsSpace(t[0]) && !IsSpace(t[|t| - 1])
    requires ParseHex(t) == Some(v)
    ensures Classify(t + "\n") == Pixel(v)
  {
    assert !StartsWith(t, "//");
    TokenLine(t);
  }

  /** A line holding a run of hex digits and its newline yields the number the digits spell. */
  lemma ValueLine(t: string)
    requires t != [] && AllHexDigits(t)
    ensures DigitsValue(t).Some? && Classify(t + "\n") == Pixel(DigitsValue(t).value as int)
  {
    ParseHexOfDigits(t);
    assert IsHexDigit(t[0]) && IsHexDigit(t[|t| - 1]);
    TokenValueLine(t, DigitsValue(t).value as int);
  }

  lemma {:induction false} PixelValuesOfPixels(ks: seq<LineKind>, vals: seq<int>)
    requires |ks| == |vals|
    requires forall k | 0 <= k < |ks| :: ks[k] == Pixel(vals[k])
    ensures PixelValues(ks) == vals
    decreases |ks|
  {
    if ks != [] {
      var n := |ks|;
      PixelValuesOfPixels(ks[..n - 1], vals[..n - 1]);
      assert vals == vals[..n - 1] + [vals[n - 1]];
    }
  }

  /** Lines that all yield values yield exactly those values, in order. */
  lemma LineValuesOfPixels(lines: seq<string>, vals: seq<int>)
    requires |lines| == |vals|
    requires forall k | 0 <= k < |lines| :: Classify(lines[k]) == Pixel(vals[k])
    ensures LineValues(lines) == vals
  {
    PixelValuesOfPixels(Kinds(lines), vals);
  }

  /** One more line of a given kind adds its value, or its warning, or nothing, at the end. */
  lemma KindSnoc(ks: seq<LineKind>, k: LineKind)
    ensures PixelValues(ks + [k]) == PixelValues(ks) + (if k.Pixel? then [k.value] else [])
    ensures Warnings(ks + [k]) == Warnings(ks) + (if k.Invalid? then [k.text] else [])
  {
    assert (ks + [k])[..|ks|] == ks;
  }

  /** A leading comment adds neither a value nor a warning. */
  lemma {:induction false} CommentFirst(ks: seq<LineKind>)
    ensures PixelValues([Comment] + ks) == PixelValues(ks)
    ensures Warnings([Comment] + ks) == Warnings(ks)
    decreases |ks|
  {
    if ks == [] {
      KindSnoc([], Comment);
      assert [Comment] + ks == [] + [Comment];
    } else {
      var n := |ks| - 1;
      CommentFirst(ks[..n]);
      assert [Comment] + ks == ([Comment] + ks[..n]) + [ks[n]];
      assert ks == ks[..n] + [ks[n]];
      KindSnoc([Comment] + ks[..n], ks[n]);
      KindSnoc(ks[..n], ks[n]);
    }
  }

  /**
   * A comment line followed by lines that each yield a value yields exactly
   * those values, in order, and no warning.
   */
  lemma HeaderThenValues(header: string, data: seq<string>, vals: seq<int>)
    requires Classify(header) == Comment
    requires |data| == |vals|
    requires forall k | 0 <= k < |data| :: Classify(data[k]) == Pixel(vals[k])
    ensures LineValues([header] + data) == vals
    ensures InvalidLines([header] + data) == []
  {
    var ks := Kinds(data);
    KindsCons(header, data);
    CommentFirst(ks);
    PixelValuesOfPixels(ks, vals);
    WarningsNone(ks);
  }

  lemma {:induction false} WarningsNone(ks: seq<LineKind>)
    requires forall k | 0 <= k < |ks| :: !ks[k].Invalid?
    ensures Warnings(ks) == []
    decreases |ks|
  {
    if ks != [] {
      WarningsNone(ks[..|ks| - 1]);
    }
  }

  /** A file with no invalid line produces no warning. */
  lemma NoInvalidNoWarnings(lines: seq<string>)
    requires forall k | 0 <= k < |lines| :: !Classify(lines[k]).Invalid?
    ensures InvalidLines(lines) == []
  {
    WarningsNone(Kinds(lines));
  }
}
