/** Colour utilities: the palette table, cycling a palette into one fading
    colour map per cluster, reading `#rrggbb` strings, and the segment data
    a fading colour map is built from. Matplotlib's colour-name lookup is a
    parameter; colour-map objects are represented by their segment data. */
module Colors {
  import opened Common

  // ---------------------------------------------------------------------
  // replacement_color_list

  /** Palettes by number of colours, each a list of Matplotlib colour names
      or `#rrggbb` strings. */
  const COLOR_D: map<int, seq<string>> := map[
    2 := ["b", "r"],
    3 := ["b", "green", "r"],
    4 := ["b", "green", "orange", "r"],
    5 := ["navy", "b", "green", "orange", "r"],
    6 := ["navy", "b", "green", "orange", "r", "darkred"],
    7 := ["navy", "b", "green", "olive", "orange", "r", "darkred"],
    8 := ["navy", "b", "green", "olive", "orange", "r", "darkred", "deeppink"],
    9 := ["navy", "b", "#b8ffeb", "green", "olive", "orange", "r", "darkred", "#fe019a"],
    10 := ["navy", "b", "#b8ffeb", "green", "#ccfd7f", "olive", "orange", "r", "darkred", "#fe019a"],
    11 := ["navy", "b", "#b8ffeb", "green", "#ccfd7f", "olive", "orange", "r", "darkred", "#cf0234",
           "#fe019a"],
    12 := ["navy", "b", "#b8ffeb", "green", "#ccfd7f", "olive", "orange", "r", "darkred", "#cf0234",
           "#6e1005", "#fe019a"],
    13 := ["navy", "b", "#b8ffeb", "green", "#ccfd7f", "olive", "#fdb915", "orange", "r", "darkred",
           "#cf0234", "#6e1005", "#fe019a"]
  ]

  /** The palette for `numberOfColors` clusters; a count the table does not
      list falls back to the thirteen-colour palette. */
  function ReplacementColorList(numberOfColors: int): (colorList: seq<string>)
    ensures 2 <= |colorList| <= 13
    ensures forall c :: c in colorList ==> |c| > 0
  {
    ColorTableShape();
    if numberOfColors in COLOR_D then COLOR_D[numberOfColors] else COLOR_D[13]
  }

  /** The table lists the counts two to thirteen, each palette holding as
      many colours as its count. */
  lemma ColorTableShape()
    ensures forall n :: n in COLOR_D <==> 2 <= n <= 13
    ensures forall n :: n in COLOR_D ==> |COLOR_D[n]| == n
  {
  }

  /** A listed count gets exactly that many colours; any other count gets the
      thirteen-colour palette. */
  lemma ReplacementColorListLength(numberOfColors: int)
    ensures 2 <= numberOfColors <= 13 ==> |ReplacementColorList(numberOfColors)| == numberOfColors
    ensures !(2 <= numberOfColors <= 13) ==>
      ReplacementColorList(numberOfColors) == ReplacementColorList(13) && |ReplacementColorList(numberOfColors)| == 13
  {
    ColorTableShape();
  }

  // ---------------------------------------------------------------------
  // _fading_colormap_rgb

  /** A colour as red, green and blue intensities. */
  datatype Rgb = Rgb(red: real, green: real, blue: real)

  /** One row of a Matplotlib segment table: at position `x` the channel
      takes the value `below` from the left and `above` to the right. */
  datatype Segment = Segment(x: real, below: real, above: real)

  /** The segment table of a colour map: one list of rows per channel. */
  datatype SegmentData = SegmentData(red: seq<Segment>, green: seq<Segment>, blue: seq<Segment>)

  /** The rows of one channel that fades between `value` and white. */
  function FadingChannel(value: real, fadeToWhite: bool): (rows: seq<Segment>)
    ensures |rows| == 2 && rows[0].x == 0.0 && rows[1].x == 1.0
  {
    if fadeToWhite then [Segment(0.0, value, value), Segment(1.0, 1.0, 1.0)]
    else [Segment(0.0, 1.0, 1.0), Segment(1.0, value, value)]
  }

  /** The segment data of a colour map fading from `fromRgb` to white, or
      from white to `fromRgb`. */
  function FadingSegments(fromRgb: Rgb, fadeToWhite: bool): (data: SegmentData)
    ensures |data.red| == 2 && |data.green| == 2 && |data.blue| == 2
    ensures var k := if fadeToWhite then 0 else 1;
      data.red[k].below == fromRgb.red && data.green[k].below == fromRgb.green && data.blue[k].below == fromRgb.blue
      && data.red[1 - k].below == 1.0 && data.green[1 - k].below == 1.0 && data.blue[1 - k].below == 1.0
  {
    SegmentData(
      FadingChannel(fromRgb.red, fadeToWhite),
      FadingChannel(fromRgb.green, fadeToWhite),
      FadingChannel(fromRgb.blue, fadeToWhite))
  }

  /** A channel that takes no jumps and has value `start` at 0 and `end`
      at 1, running through the two ends only. */
  predicate Ramp(rows: seq<Segment>, start: real, end: real)
  {
    rows == [Segment(0.0, start, start), Segment(1.0, end, end)]
  }

  /** Fading to white goes from the colour at 0 to white at 1, channel by
      channel; fading from white goes the other way. */
  lemma FadingEnds(fromRgb: Rgb, fadeToWhite: bool)
    ensures var data := FadingSegments(fromRgb, fadeToWhite);
      if fadeToWhite then
        Ramp(data.red, fromRgb.red, 1.0) && Ramp(data.green, fromRgb.green, 1.0) && Ramp(data.blue, fromRgb.blue, 1.0)
      else
        Ramp(data.red, 1.0, fromRgb.red) && Ramp(data.green, 1.0, fromRgb.green) && Ramp(data.blue, 1.0, fromRgb.blue)
  {
  }

  /** A channel read from the other end: position `x` becomes `1 - x`, and
      what lay below a point now lies above it. */
  function Mirror(rows: seq<Segment>): (mirrored: seq<Segment>)
    ensures |mirrored| == |rows|
    ensures forall k :: 0 <= k < |rows| ==>
      mirrored[k] == Segment(1.0 - rows[|rows| - 1 - k].x, rows[|rows| - 1 - k].above, rows[|rows| - 1 - k].below)
  {
    seq(|rows|, k requires 0 <= k < |rows| =>
      Segment(1.0 - rows[|rows| - 1 - k].x, rows[|rows| - 1 - k].above, rows[|rows| - 1 - k].below))
  }

  /** The two directions are mirror images of each other. */
  lemma FadingMirror(fromRgb: Rgb)
    ensures var toWhite := FadingSegments(fromRgb, true);
      var fromWhite := FadingSegments(fromRgb, false);
      fromWhite.red == Mirror(toWhite.red) && fromWhite.green == Mirror(toWhite.green)
      && fromWhite.blue == Mirror(toWhite.blue)
  {
    var toWhite := FadingSegments(fromRgb, true);
    var fromWhite := FadingSegments(fromRgb, false);
    assert fromWhite.red == Mirror(toWhite.red);
    assert fromWhite.green == Mirror(toWhite.green);
    assert fromWhite.blue == Mirror(toWhite.blue);
  }

  /** A value Matplotlib can use as a colour intensity. */
  predicate Unit(v: real)
  {
    0.0 <= v <= 1.0
  }

  /** A segment table Matplotlib accepts and renders faithfully: positions
      run from 0 to 1 in increasing order and every value is an intensity. */
  predicate ValidChannel(rows: seq<Segment>)
  {
    |rows| >= 2 && rows[0].x == 0.0 && rows[|rows| - 1].x == 1.0
    && (forall k :: 0 < k < |rows| ==> rows[k - 1].x <= rows[k].x)
    && (forall k :: 0 <= k < |rows| ==> Unit(rows[k].below) && Unit(rows[k].above))
  }

  predicate ValidSegments(data: SegmentData)
  {
    ValidChannel(data.red) && ValidChannel(data.green) && ValidChannel(data.blue)
  }

  /** A colour whose channels are intensities fades through valid tables,
      and only such a colour does. */
  lemma FadingValid(fromRgb: Rgb, fadeToWhite: bool)
    ensures ValidSegments(FadingSegments(fromRgb, fadeToWhite))
      <==> Unit(fromRgb.red) && Unit(fromRgb.green) && Unit(fromRgb.blue)
  {
    var data := FadingSegments(fromRgb, fadeToWhite);
    var k := if fadeToWhite then 0 else 1;
    assert data.red[k].below == fromRgb.red;
    assert data.green[k].below == fromRgb.green;
    assert data.blue[k].below == fromRgb.blue;
  }

  // ---------------------------------------------------------------------
  // _fading_colormap_hex

  /** Python's `str.lstrip("#")`: every leading `#` removed. */
  function LstripHash(s: string): (rest: string)
    ensures |rest| <= |s| && rest == s[|s| - |rest|..]
    ensures forall i :: 0 <= i < |s| - |rest| ==> s[i] == '#'
    ensures |rest| > 0 ==> rest[0] != '#'
  {
    if |s| > 0 && s[0] == '#' then LstripHash(s[1..]) else s
  }

  /** Python's slice `s[lo:hi]` for `0 <= lo <= hi`: clipped to the string. */
  function Slice(s: string, lo: nat, hi: nat): (piece: string)
    requires lo <= hi
    ensures |piece| == (if hi <= |s| then hi - lo else if lo <= |s| then |s| - lo else 0)
    ensures forall i :: 0 <= i < |piece| ==> piece[i] == s[lo + i]
  {
    if |s| <= lo then "" else if |s| <= hi then s[lo..] else s[lo..hi]
  }

  /** The value of a hexadecimal digit, upper or lower case. */
  function HexDigit(c: char): (d: Option<nat>)
    ensures d.Some? ==> d.value < 16
  {
    if '0' <= c <= '9' then Some(c as nat - '0' as nat)
    else if 'a' <= c <= 'f' then Some(c as nat - 'a' as nat + 10)
    else if 'A' <= c <= 'F' then Some(c as nat - 'A' as nat + 10)
    else None
  }

  /** Only the digit `0` has the value 0. */
  lemma OnlyZeroDigitIsZero(c: char)
    requires HexDigit(c).Some? && c != '0'
    ensures HexDigit(c).value >= 1
  {
  }

  predicate AllHexDigits(s: string)
  {
    forall i :: 0 <= i < |s| ==> HexDigit(s[i]).Some?
  }

  /** The number a string of hexadecimal digits spells, most significant
      digit first. */
  function HexNumber(s: string): (n: nat)
    requires AllHexDigits(s)
  {
    if |s| == 0 then 0
    else 16 * HexNumber(s[..|s| - 1]) + HexDigit(s[|s| - 1]).value
  }

  function Pow16(k: nat): (p: nat)
    ensures p > 0
  {
    if k == 0 then 1 else 16 * Pow16(k - 1)
  }

  /** `k` digits spell a number below `16^k`. */
  lemma {:induction false} HexNumberBound(s: string)
    requires AllHexDigits(s)
    ensures HexNumber(s) < Pow16(|s|)
  {
    if |s| > 0 {
      HexNumberBound(s[..|s| - 1]);
    }
  }

  /** The whitespace Python's `int` ignores around its argument (the ASCII
      part of it, which includes the four separators 0x1C to 0x1F). */
  predicate Space(c: char)
  {
    c == ' ' || c == '\t' || c == '\n' || c == '\r' || c == '\U{B}' || c == '\U{C}'
    || c == '\U{1C}' || c == '\U{1D}' || c == '\U{1E}' || c == '\U{1F}'
  }

  /** `s` with surrounding whitespace removed. */
  function Strip(s: string): (t: string)
    ensures |t| <= |s|
    ensures |t| > 0 ==> !Space(t[0]) && !Space(t[|t| - 1])
  {
    if |s| > 0 && Space(s[0]) then Strip(s[1..])
    else if |s| > 0 && Space(s[|s| - 1]) then Strip(s[..|s| - 1])
    else s
  }

  /** Python's `int(piece, 16)` on a piece of at most two characters, as the
      slices of a hex colour are: surrounding whitespace is ignored, a sign
      may come first, and the rest must be hexadecimal digits. (The `0x`
      prefix and digit-separating underscores need more than two
      characters.) */
  function ParsePair(piece: string): (r: Result<int>)
    requires |piece| <= 2
    ensures r.Ok? ==> -15 <= r.value <= 255
    ensures r.Err? ==> r.error == ValueError
    ensures AllHexDigits(piece) && |piece| > 0 ==> r == Ok(HexNumber(piece))
  {
    var t := Strip(piece);
    if |t| == 0 then Err(ValueError)
    else if (t[0] == '+' || t[0] == '-') && |t[1..]| > 0 && AllHexDigits(t[1..]) then
      HexNumberBound(t[1..]);
      var magnitude: int := HexNumber(t[1..]);
      if t[0] == '-' then Ok(-magnitude) else Ok(magnitude)
    else if AllHexDigits(t) then
      HexNumberBound(t);
      Ok(HexNumber(t))
    else Err(ValueError)
  }

  /** The two characters `s[lo:lo + 2]` of one channel. */
  function ChannelPiece(s: string, lo: nat): (piece: string)
    ensures |piece| <= 2
  {
    Slice(s, lo, lo + 2)
  }

  /** The three channel numbers of a hex colour, read as the source reads
      them: each pair of characters after the leading `#`s as a base-16
      integer, with no scaling. */
  function HexRgbAsWritten(fromHex: string): (r: Result<(int, int, int)>)
    ensures r.Err? ==> r.error == ValueError
    ensures r.Ok? ==> -15 <= r.value.0 <= 255 && -15 <= r.value.1 <= 255 && -15 <= r.value.2 <= 255
  {
    var hexNumber := LstripHash(fromHex);
    var red := ParsePair(ChannelPiece(hexNumber, 0));
    var green := ParsePair(ChannelPiece(hexNumber, 2));
    var blue := ParsePair(ChannelPiece(hexNumber, 4));
    if red.Err? then Err(red.error)
    else if green.Err? then Err(green.error)
    else if blue.Err? then Err(blue.error)
    else Ok((red.value, green.value, blue.value))
  }

  /** The two-digit byte at position `lo` of a digit string: sixteen times
      its first digit plus its second. */
  function Byte(s: string, lo: nat): (b: nat)
    requires lo + 2 <= |s| && AllHexDigits(s[lo..lo + 2])
    ensures HexDigit(s[lo]).Some? && HexDigit(s[lo + 1]).Some?
    ensures b == 16 * HexDigit(s[lo]).value + HexDigit(s[lo + 1]).value
    ensures b <= 255
  {
    var pair := s[lo..lo + 2];
    assert pair[0] == s[lo] && pair[1] == s[lo + 1];
    assert pair[..1][..0] == "" && pair[..1][0] == s[lo];
    assert HexNumber(pair[..1]) == HexDigit(s[lo]).value;
    assert HexNumber(pair) == 16 * HexNumber(pair[..1]) + HexDigit(pair[1]).value;
    HexNumber(pair)
  }

  /** Six hexadecimal digits after the `#`s, read as three pairs. */
  predicate SixDigits(hexNumber: string)
  {
    |hexNumber| >= 6
    && AllHexDigits(hexNumber[0..2]) && AllHexDigits(hexNumber[2..4]) && AllHexDigits(hexNumber[4..6])
  }

  /** A pair of hexadecimal digits reads as its byte. */
  lemma PairByte(hexNumber: string, lo: nat)
    requires lo + 2 <= |hexNumber| && AllHexDigits(hexNumber[lo..lo + 2])
    ensures ParsePair(ChannelPiece(hexNumber, lo)) == Ok(Byte(hexNumber, lo) as int)
  {
    assert ChannelPiece(hexNumber, lo) == hexNumber[lo..lo + 2];
  }

  /** A well-formed hex colour gives its three bytes, each in 0..255. */
  lemma HexRgbAsWrittenBytes(fromHex: string)
    requires SixDigits(LstripHash(fromHex))
    ensures var hexNumber := LstripHash(fromHex);
      HexRgbAsWritten(fromHex) == Ok((Byte(hexNumber, 0), Byte(hexNumber, 2), Byte(hexNumber, 4)))
  {
    var hexNumber := LstripHash(fromHex);
    PairByte(hexNumber, 0);
    PairByte(hexNumber, 2);
    PairByte(hexNumber, 4);
  }

  /** Fewer than five characters after the `#`s leave the blue pair empty,
      which `int` refuses. */
  lemma HexRgbAsWrittenShort(fromHex: string)
    requires |LstripHash(fromHex)| <= 4
    ensures HexRgbAsWritten(fromHex) == Err(ValueError)
  {
    var hexNumber := LstripHash(fromHex);
    assert ChannelPiece(hexNumber, 4) == "";
    assert ParsePair("") == Err(ValueError);
  }

  /** Every leading `#` of a string with one `#` is that one character. */
  lemma LstripOneHash(s: string)
    requires |s| > 1 && s[0] == '#' && s[1] != '#'
    ensures LstripHash(s) == s[1..]
  {
    assert s[1..][0] == s[1];
  }

  /** A minus sign and one digit read as the negated digit. */
  lemma ParseNegative(piece: string)
    requires |piece| == 2 && piece[0] == '-' && HexDigit(piece[1]).Some?
    ensures ParsePair(piece) == Ok(-(HexDigit(piece[1]).value as int))
  {
    assert Strip(piece) == piece;
    assert piece[1..][..0] == "" && piece[1..][0] == piece[1];
  }

  /** `int(.., 16)` also takes a sign, so a pair such as `-1` reads as a
      negative channel. */
  lemma HexRgbAsWrittenSigned(fromHex: string)
    requires fromHex == "#-10000"
    ensures HexRgbAsWritten(fromHex) == Ok((-1, 0, 0))
  {
    LstripOneHash(fromHex);
    var hexNumber := LstripHash(fromHex);
    ParseNegative(ChannelPiece(hexNumber, 0));
    assert AllHexDigits(hexNumber[2..4]) && AllHexDigits(hexNumber[4..6]) by {
      assert hexNumber[2..4][0] == '0' && hexNumber[2..4][1] == '0';
      assert hexNumber[4..6][0] == '0' && hexNumber[4..6][1] == '0';
    }
    PairByte(hexNumber, 2);
    PairByte(hexNumber, 4);
  }

  /** As written, the channels of a hex colour are bytes: `#b8ffeb` gives a
      red of 184 where the colour-name path and the white end of the fade
      use intensities up to 1, so the fading table is not a valid one. */
  lemma HexRgbAsWrittenOutOfUnit(fromHex: string)
    requires fromHex == "#b8ffeb"
    ensures HexRgbAsWritten(fromHex).Ok? && HexRgbAsWritten(fromHex).value.0 == 184
    ensures !ValidSegments(FadingSegments(ScaledRgb(HexRgbAsWritten(fromHex).value, 1.0), true))
  {
    LstripOneHash(fromHex);
    var hexNumber := LstripHash(fromHex);
    assert SixDigits(hexNumber) by {
      assert forall i :: 0 <= i < 2 ==> hexNumber[0..2][i] == hexNumber[i];
      assert forall i :: 0 <= i < 2 ==> hexNumber[2..4][i] == hexNumber[i + 2];
      assert forall i :: 0 <= i < 2 ==> hexNumber[4..6][i] == hexNumber[i + 4];
    }
    HexRgbAsWrittenBytes(fromHex);
    FadingValid(ScaledRgb(HexRgbAsWritten(fromHex).value, 1.0), true);
  }

  /** Channel numbers divided by `scale`, as intensities. */
  function ScaledRgb(channels: (int, int, int), scale: real): (rgb: Rgb)
    requires scale > 0.0
    ensures rgb.red * scale == channels.0 as real
    ensures rgb.green * scale == channels.1 as real
    ensures rgb.blue * scale == channels.2 as real
  {
    Rgb(channels.0 as real / scale, channels.1 as real / scale, channels.2 as real / scale)
  }

  /** A hex colour read as intensities: the bytes divided by 255, on the
      scale `colors.to_rgba` gives for a colour name. */
  function HexRgb(fromHex: string): (r: Result<Rgb>)
    ensures r.Ok? <==> HexRgbAsWritten(fromHex).Ok?
    ensures r.Err? ==> r.error == ValueError
    ensures r.Ok? ==> var channels := HexRgbAsWritten(fromHex).value;
      r.value.red * 255.0 == channels.0 as real && r.value.green * 255.0 == channels.1 as real
      && r.value.blue * 255.0 == channels.2 as real
  {
    match HexRgbAsWritten(fromHex)
      case Ok(channels) => Ok(ScaledRgb(channels, 255.0))
      case Err(e) => Err(e)
  }

  /** A well-formed hex colour reads as intensities, each its byte over 255,
      and so fades through a valid table. */
  lemma HexRgbUnit(fromHex: string, fadeToWhite: bool)
    requires SixDigits(LstripHash(fromHex))
    ensures HexRgb(fromHex).Ok?
    ensures var rgb := HexRgb(fromHex).value;
      Unit(rgb.red) && Unit(rgb.green) && Unit(rgb.blue)
      && ValidSegments(FadingSegments(rgb, fadeToWhite))
  {
    HexRgbAsWrittenBytes(fromHex);
    FadingValid(HexRgb(fromHex).value, fadeToWhite);
  }

  /** Writing a byte as two lower-case hexadecimal digits. */
  function HexPair(b: nat): (s: string)
    requires b < 256
    ensures |s| == 2 && AllHexDigits(s)
  {
    [HexChar(b / 16), HexChar(b % 16)]
  }

  function HexChar(d: nat): (c: char)
    requires d < 16
    ensures HexDigit(c) == Some(d)
  {
    if d < 10 then ('0' as int + d) as char else ('a' as int + d - 10) as char
  }

  /** Reading back the digits written for a byte gives the byte. */
  lemma HexPairRoundTrip(b: nat)
    requires b < 256
    ensures HexNumber(HexPair(b)) == b
  {
    var s := HexPair(b);
    assert s[0..2] == s;
    assert Byte(s, 0) == b;
  }

  /** The digits written for three bytes, as a hex colour. */
  function FormatHex(red: nat, green: nat, blue: nat): (fromHex: string)
    requires red < 256 && green < 256 && blue < 256
    ensures |fromHex| == 7 && fromHex[0] == '#'
  {
    "#" + HexPair(red) + HexPair(green) + HexPair(blue)
  }

  /** The digits of a formatted colour are its three pairs. */
  lemma FormatHexDigits(red: nat, green: nat, blue: nat)
    requires red < 256 && green < 256 && blue < 256
    ensures var hexNumber := LstripHash(FormatHex(red, green, blue));
      hexNumber == FormatHex(red, green, blue)[1..]
      && hexNumber[0..2] == HexPair(red) && hexNumber[2..4] == HexPair(green) && hexNumber[4..6] == HexPair(blue)
  {
    var fromHex := FormatHex(red, green, blue);
    assert fromHex[1] == HexPair(red)[0];
    assert HexDigit(fromHex[1]).Some?;
    LstripOneHash(fromHex);
    var hexNumber := fromHex[1..];
    assert hexNumber == HexPair(red) + HexPair(green) + HexPair(blue);
  }

  /** Formatting three bytes as `#rrggbb` and reading the string the way
      the source reads it gives the three bytes back. */
  lemma HexRgbAsWrittenRoundTrip(red: nat, green: nat, blue: nat)
    requires red < 256 && green < 256 && blue < 256
    ensures HexRgbAsWritten(FormatHex(red, green, blue)) == Ok((red as int, green as int, blue as int))
  {
    var fromHex := FormatHex(red, green, blue);
    FormatHexDigits(red, green, blue);
    var hexNumber := LstripHash(fromHex);
    HexPairRoundTrip(red);
    HexPairRoundTrip(green);
    HexPairRoundTrip(blue);
    assert Byte(hexNumber, 0) == red && Byte(hexNumber, 2) == green && Byte(hexNumber, 4) == blue;
    HexRgbAsWrittenBytes(fromHex);
  }

  /** Formatting three bytes as `#rrggbb` and reading the string with the
      corrected reader gives the bytes back, as intensities. */
  lemma HexRgbRoundTrip(red: nat, green: nat, blue: nat)
    requires red < 256 && green < 256 && blue < 256
    ensures HexRgb(FormatHex(red, green, blue))
      == Ok(Rgb(red as real / 255.0, green as real / 255.0, blue as real / 255.0))
  {
    var channels := (red as int, green as int, blue as int);
    HexRgbAsWrittenRoundTrip(red, green, blue);
    HexRgbOfChannels(FormatHex(red, green, blue), channels);
    assert ScaledRgb(channels, 255.0) == Rgb(red as real / 255.0, green as real / 255.0, blue as real / 255.0);
  }

  /** The corrected reader scales whatever channels the source reads. */
  lemma HexRgbOfChannels(fromHex: string, channels: (int, int, int))
    requires HexRgbAsWritten(fromHex) == Ok(channels)
    ensures HexRgb(fromHex) == Ok(ScaledRgb(channels, 255.0))
  {
  }

  // ---------------------------------------------------------------------
  // fading_colormap and return_list_of_colormaps

  /** The segment data of the colour map fading from `fromColor`, as the
      source builds it: a string starting with `#` is read by
      `_fading_colormap_hex`, whose channel numbers (0 to 255 for a
      well-formed colour) go into the table unscaled; anything else is
      looked up by name (`toRgba`, Matplotlib's colour-name table, `None`
      for an unknown name, which raises a `ValueError`). */
  function FadingColormap(fromColor: string, toRgba: string -> Option<Rgb>, fadeToWhite: bool := true): (r: Result<SegmentData>)
    ensures r.Err? ==> r.error == ValueError
    ensures r.Ok? ==> |r.value.red| == 2 && |r.value.green| == 2 && |r.value.blue| == 2
    ensures |fromColor| > 0 && fromColor[0] == '#' ==>
      (r.Ok? <==> HexRgbAsWritten(fromColor).Ok?)
      && (r.Ok? ==> var k, channels := if fadeToWhite then 0 else 1, HexRgbAsWritten(fromColor).value;
            r.value.red[k].below == channels.0 as real && r.value.green[k].below == channels.1 as real
            && r.value.blue[k].below == channels.2 as real)
  {
    if |fromColor| > 0 && fromColor[0] == '#' then
      match HexRgbAsWritten(fromColor)
        case Ok(channels) => Ok(FadingSegments(ScaledRgb(channels, 1.0), fadeToWhite))
        case Err(e) => Err(e)
    else
      match toRgba(fromColor)
        case Some(rgb) => Ok(FadingSegments(rgb, fadeToWhite))
        case None => Err(ValueError)
  }

  /** `fading_colormap` with the hex channels divided by 255, on the scale
      `colors.to_rgba` gives a colour name. */
  function FadingColormapCorrected(fromColor: string, toRgba: string -> Option<Rgb>, fadeToWhite: bool := true)
    : (r: Result<SegmentData>)
    ensures r.Err? ==> r.error == ValueError
    ensures r.Ok? ==> |r.value.red| == 2 && |r.value.green| == 2 && |r.value.blue| == 2
    ensures |fromColor| > 0 && fromColor[0] == '#' ==>
      (r.Ok? <==> HexRgbAsWritten(fromColor).Ok?)
      && (r.Ok? ==> var k, channels := if fadeToWhite then 0 else 1, HexRgbAsWritten(fromColor).value;
            r.value.red[k].below * 255.0 == channels.0 as real && r.value.green[k].below * 255.0 == channels.1 as real
            && r.value.blue[k].below * 255.0 == channels.2 as real)
    ensures !(|fromColor| > 0 && fromColor[0] == '#') ==> r == FadingColormap(fromColor, toRgba, fadeToWhite)
  {
    if |fromColor| > 0 && fromColor[0] == '#' then
      match HexRgb(fromColor)
        case Ok(rgb) => Ok(FadingSegments(rgb, fadeToWhite))
        case Err(e) => Err(e)
    else
      FadingColormap(fromColor, toRgba, fadeToWhite)
  }

  /** A string starting with `#` never consults the colour-name table; any
      other string is decided by its entry there alone. */
  lemma FadingColormapDispatch(fromColor: string, fadeToWhite: bool, toRgba: string -> Option<Rgb>,
                               otherRgba: string -> Option<Rgb>)
    ensures |fromColor| > 0 && fromColor[0] == '#' ==>
      FadingColormap(fromColor, toRgba, fadeToWhite) == FadingColormap(fromColor, otherRgba, fadeToWhite)
    ensures !(|fromColor| > 0 && fromColor[0] == '#') && toRgba(fromColor) == otherRgba(fromColor) ==>
      FadingColormap(fromColor, toRgba, fadeToWhite) == FadingColormap(fromColor, otherRgba, fadeToWhite)
    ensures !(|fromColor| > 0 && fromColor[0] == '#') ==>
      (FadingColormap(fromColor, toRgba, fadeToWhite).Ok? <==> toRgba(fromColor).Some?)
  {
  }

  /** The colour of map `i`: the palette read cyclically. */
  function CycledColor(colorList: seq<string>, i: nat): (c: string)
    requires |colorList| > 0
    ensures c in colorList
  {
    colorList[i % |colorList|]
  }

  /** The loop of `return_list_of_colormaps`, with `fadingColormap` standing
      for `fading_colormap` at the chosen direction: map `i` is made from
      colour `i mod |colorList|`, and the first colour that cannot be read
      raises its error. */
  method CycleColormaps(colorList: seq<string>, number: int, fadingColormap: string -> Result<SegmentData>)
    returns (r: Result<seq<SegmentData>>)
    requires |colorList| > 0
    ensures r.Ok? <==> forall i :: 0 <= i < number ==> fadingColormap(CycledColor(colorList, i)).Ok?
    ensures r.Ok? ==> |r.value| == (if number > 0 then number else 0)
    ensures r.Ok? ==> forall i :: 0 <= i < |r.value| ==> Ok(r.value[i]) == fadingColormap(CycledColor(colorList, i))
    ensures r.Err? ==> exists i :: 0 <= i < number && fadingColormap(CycledColor(colorList, i)) == Err(r.error)
  {
    var cmapList: seq<SegmentData> := [];
    var i := 0;
    while i < number
      invariant 0 <= i && (number > 0 ==> i <= number) && (number <= 0 ==> i == 0)
      invariant |cmapList| == i
      invariant forall k :: 0 <= k < i ==> Ok(cmapList[k]) == fadingColormap(CycledColor(colorList, k))
    {
      var cmap := fadingColormap(CycledColor(colorList, i));
      if cmap.Err? {
        return Err(cmap.error);
      }
      cmapList := cmapList + [cmap.value];
      i := i + 1;
    }
    return Ok(cmapList);
  }

  /** One fading colour map per cluster, the colours taken cyclically from
      the palette for `number` clusters, as the source builds them. */
  method ReturnListOfColormaps(number: int, toRgba: string -> Option<Rgb>, fadeToWhite: bool := true)
    returns (r: Result<seq<SegmentData>>)
    ensures r.Ok? <==> forall i :: 0 <= i < number ==>
      FadingColormap(CycledColor(ReplacementColorList(number), i), toRgba, fadeToWhite).Ok?
    ensures r.Ok? ==> |r.value| == (if number > 0 then number else 0)
    ensures r.Ok? ==> forall i :: 0 <= i < |r.value| ==>
      Ok(r.value[i]) == FadingColormap(CycledColor(ReplacementColorList(number), i), toRgba, fadeToWhite)
    ensures r.Err? ==>
      exists i :: 0 <= i < number && FadingColormap(CycledColor(ReplacementColorList(number), i), toRgba, fadeToWhite) == Err(r.error)
  {
    var colorList := ReplacementColorList(number);
    r := CycleColormaps(colorList, number, fromColor => FadingColormap(fromColor, toRgba, fadeToWhite));
  }

  /** The same list with hex colours read as intensities. */
  method ReturnListOfColormapsCorrected(number: int, toRgba: string -> Option<Rgb>, fadeToWhite: bool := true)
    returns (r: Result<seq<SegmentData>>)
    ensures r.Ok? <==> forall i :: 0 <= i < number ==>
      FadingColormapCorrected(CycledColor(ReplacementColorList(number), i), toRgba, fadeToWhite).Ok?
    ensures r.Ok? ==> |r.value| == (if number > 0 then number else 0)
    ensures r.Ok? ==> forall i :: 0 <= i < |r.value| ==>
      Ok(r.value[i]) == FadingColormapCorrected(CycledColor(ReplacementColorList(number), i), toRgba, fadeToWhite)
    ensures r.Err? ==> exists i :: (0 <= i < number &&
      FadingColormapCorrected(CycledColor(ReplacementColorList(number), i), toRgba, fadeToWhite) == Err(r.error))
  {
    var colorList := ReplacementColorList(number);
    r := CycleColormaps(colorList, number, fromColor => FadingColormapCorrected(fromColor, toRgba, fadeToWhite));
  }

  // ---------------------------------------------------------------------
  // the palettes and the hex reader together

  /** A string of a `#` and six hexadecimal digits is well formed. */
  lemma SixDigitsOf(c: string)
    requires |c| == 7 && c[0] == '#' && forall i :: 1 <= i < 7 ==> HexDigit(c[i]).Some?
    ensures LstripHash(c) == c[1..] && SixDigits(LstripHash(c))
  {
    LstripOneHash(c);
    var h := c[1..];
    assert forall i :: 0 <= i < 2 ==> h[0..2][i] == c[i + 1] && h[2..4][i] == c[i + 3] && h[4..6][i] == c[i + 5];
  }

  /** The palettes of up to eight colours use colour names only. */
  lemma SmallPalettesNamed(n: int)
    requires 2 <= n <= 8
    ensures forall c :: c in COLOR_D[n] ==> |c| > 0 && c[0] != '#'
  {
  }

  /** The hex colours the palettes use. */
  const PALETTE_HEXES: seq<string> := ["#b8ffeb", "#ccfd7f", "#cf0234", "#6e1005", "#fe019a", "#fdb915"]

  /** Each of them is well formed, and none has a red byte starting with
      the digit 0. */
  lemma PaletteHex(c: string)
    requires c in PALETTE_HEXES
    ensures SixDigits(LstripHash(c)) && LstripHash(c)[0] != '0'
  {
    SixDigitsOf(c);
    assert c[1] != '0';
  }

  /** The hex colours of the larger palettes are well formed, and none has
      a red byte starting with the digit 0. */
  lemma LargePaletteHexes(n: int)
    requires 9 <= n <= 13
    ensures forall c :: c in COLOR_D[n] && |c| > 0 && c[0] == '#' ==>
      SixDigits(LstripHash(c)) && LstripHash(c)[0] != '0'
  {
    var p := COLOR_D[n];
    forall k | 0 <= k < |p| && |p[k]| > 0 && p[k][0] == '#'
      ensures SixDigits(LstripHash(p[k])) && LstripHash(p[k])[0] != '0'
    {
      assert p[k] in PALETTE_HEXES;
      PaletteHex(p[k]);
    }
  }

  /** Every hex colour a palette holds is well formed, with a red byte of
      at least 16. */
  lemma PaletteHexes(number: int)
    ensures forall c :: c in ReplacementColorList(number) && |c| > 0 && c[0] == '#' ==>
      SixDigits(LstripHash(c)) && LstripHash(c)[0] != '0'
  {
    ColorTableShape();
    var n := if number in COLOR_D then number else 13;
    assert ReplacementColorList(number) == COLOR_D[n];
    if n <= 8 {
      SmallPalettesNamed(n);
    } else {
      LargePaletteHexes(n);
    }
  }

  /** A well-formed hex colour whose first digit is not 0 has, as written,
      a red channel of at least 16, so its fading table is not a valid one
      in either direction. */
  lemma HexRgbAsWrittenAboveUnit(fromHex: string, fadeToWhite: bool)
    requires SixDigits(LstripHash(fromHex)) && LstripHash(fromHex)[0] != '0'
    ensures HexRgbAsWritten(fromHex).Ok? && HexRgbAsWritten(fromHex).value.0 >= 16
    ensures !ValidSegments(FadingSegments(ScaledRgb(HexRgbAsWritten(fromHex).value, 1.0), fadeToWhite))
  {
    var hexNumber := LstripHash(fromHex);
    HexRgbAsWrittenBytes(fromHex);
    assert Byte(hexNumber, 0) >= 16 by {
      assert HexDigit(hexNumber[0]).Some?;
      OnlyZeroDigitIsZero(hexNumber[0]);
    }
    var rgb := ScaledRgb(HexRgbAsWritten(fromHex).value, 1.0);
    assert rgb.red >= 16.0;
    FadingValid(rgb, fadeToWhite);
  }

  /** So, as written, a map of `return_list_of_colormaps` whose colour is a
      hex string is always built, but its table holds a channel above 1 and
      is not a valid one; only colour names depend on the name table. */
  lemma PaletteHexColormaps(number: int, i: nat, fadeToWhite: bool, toRgba: string -> Option<Rgb>)
    ensures var c := CycledColor(ReplacementColorList(number), i);
      |c| > 0 && c[0] == '#' ==>
        FadingColormap(c, toRgba, fadeToWhite).Ok? && !ValidSegments(FadingColormap(c, toRgba, fadeToWhite).value)
  {
    var c := CycledColor(ReplacementColorList(number), i);
    if |c| > 0 && c[0] == '#' {
      PaletteHexes(number);
      HexRgbAsWrittenAboveUnit(c, fadeToWhite);
    }
  }

  /** With hex colours read as intensities, such a map is always built and
      its table is a valid one. */
  lemma PaletteHexColormapsCorrected(number: int, i: nat, fadeToWhite: bool, toRgba: string -> Option<Rgb>)
    ensures var c := CycledColor(ReplacementColorList(number), i);
      |c| > 0 && c[0] == '#' ==>
        FadingColormapCorrected(c, toRgba, fadeToWhite).Ok?
        && ValidSegments(FadingColormapCorrected(c, toRgba, fadeToWhite).value)
  {
    var c := CycledColor(ReplacementColorList(number), i);
    if |c| > 0 && c[0] == '#' {
      PaletteHexes(number);
      HexRgbUnit(c, fadeToWhite);
    }
  }
}
