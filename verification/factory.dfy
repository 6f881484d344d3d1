/** `TagFactory::create_tag` and `ColorResolver::hex_to_color` of
    `src/factory.rs`: the bracketed, padded level tag of a log line and the
    colour a `#rrggbb` string stands for. */
module Factory {
  import opened Wrappers
  import opened Text
  import opened Hex
  import opened ConfigCache

  /** The label of a level: its entry in `labels`, else the level itself. */
  function Label(labels: map<string, string>, level: string): (r: string)
    ensures level in labels ==> r == labels[level]
    ensures level !in labels ==> r == level
  {
    if level in labels then labels[level] else level
  }

  /** The configured case transform; unknown names leave the label alone. */
  function Transform(transform: string, name: string): (r: string)
    ensures |r| == |name|
    ensures transform == "uppercase" ==> forall i :: 0 <= i < |r| ==> r[i] == UpperChar(name[i])
    ensures transform == "lowercase" ==> forall i :: 0 <= i < |r| ==> r[i] == LowerChar(name[i])
    ensures transform == "capitalize" && |name| > 0 ==> r[0] == UpperChar(name[0]) && r[1..] == name[1..]
    ensures transform !in {"uppercase", "lowercase", "capitalize"} ==> r == name
  {
    if transform == "uppercase" then Upper(name)
    else if transform == "lowercase" then Lower(name)
    else if transform == "capitalize" then
      (if name == [] then [] else [UpperChar(name[0])] + name[1..])
    else name
  }

  /** Centre `t` in `width` columns: the text is kept whole, surrounded by
      spaces, with the odd space on the right. A text already as wide as
      `width` is returned unchanged. */
  function Pad(t: string, width: nat): (r: string)
    ensures |t| >= width ==> r == t
    ensures |t| < width ==> |r| == width
    ensures |t| < width ==>
              var left := (width - |t|) / 2;
              && r[left..left + |t|] == t
              && (forall i :: 0 <= i < left ==> r[i] == ' ')
              && (forall i :: left + |t| <= i < |r| ==> r[i] == ' ')
              && left <= width - |t| - left <= left + 1
  {
    if |t| >= width then t
    else
      var total := width - |t|;
      var left := total / 2;
      var r := Repeat(' ', left) + t + Repeat(' ', total - left);
      assert r[left..left + |t|] == t;
      r
  }

  /** `create_tag`: prefix, padded transformed label, suffix. */
  function CreateTag(tag: TagConfig, labels: map<string, string>, level: string): (r: string)
    ensures StartsWith(r, tag.prefix) && EndsWith(r, tag.suffix)
    ensures |r| == |tag.prefix| + (if |Label(labels, level)| >= tag.minWidth then |Label(labels, level)| else tag.minWidth) + |tag.suffix|
    ensures r[|tag.prefix|..|r| - |tag.suffix|] == Pad(Transform(tag.transform, Label(labels, level)), tag.minWidth)
  {
    var padded := Pad(Transform(tag.transform, Label(labels, level)), tag.minWidth);
    var r := tag.prefix + padded + tag.suffix;
    assert r[..|tag.prefix|] == tag.prefix;
    assert r[|r| - |tag.suffix|..] == tag.suffix;
    assert r[|tag.prefix|..|r| - |tag.suffix|] == padded;
    r
  }

  /** The tag configuration the tests use: square brackets, upper case,
      width 5, with `info` labelled `INF`. */
  function TestTag(): TagConfig {
    TagConfig("[", "]", "uppercase", 5, "center")
  }

  function TestLabels(): map<string, string> {
    map["info" := "INF", "error" := "ERR"]
  }

  /** The upper-case transform as the factory tests expect it: `debug`
      fills the width exactly. */
  lemma CreateTagExact()
    ensures CreateTag(TestTag(), TestLabels(), "debug") == "[DEBUG]"
  {
    assert Transform("uppercase", "debug") == "DEBUG";
  }

  /** The label lookup as the factory tests expect it: `info` is labelled
      `INF` and centred. */
  lemma CreateTagLabelled()
    ensures CreateTag(TestTag(), TestLabels(), "info") == "[ INF ]"
  {
    assert Transform("uppercase", "INF") == "INF";
    assert Pad("INF", 5) == " INF ";
  }

  /** Padding to a wider width splits the spaces evenly. */
  lemma CreateTagWide()
    ensures CreateTag(TestTag().(minWidth := 10), TestLabels(), "ok") == "[    OK    ]"
  {
    assert Transform("uppercase", "ok") == "OK";
    PadWide();
  }

  /** Four spaces either side of a two-character label in width ten. */
  lemma PadWide()
    ensures Pad("OK", 10) == "    OK    "
  {
    assert Pad("OK", 10) == Repeat(' ', 4) + "OK" + Repeat(' ', 4);
    assert Repeat(' ', 4) == "    ";
  }

  /** A zero width leaves the label bare between custom brackets. */
  lemma CreateTagBare()
    ensures CreateTag(TestTag().(prefix := "<<", suffix := ">>", minWidth := 0), TestLabels(), "ok") == "<<OK>>"
  {
    assert Transform("uppercase", "ok") == "OK";
  }

  /** The capitalize transform upper-cases the first character only. */
  lemma CreateTagCapitalized()
    ensures CreateTag(TestTag().(transform := "capitalize"), TestLabels(), "debug") == "[Debug]"
  {
    assert Transform("capitalize", "debug") == "Debug";
  }

  /** The lowercase transform. */
  lemma CreateTagLowered()
    ensures CreateTag(TestTag().(transform := "lowercase"), TestLabels(), "DEBUG") == "[debug]"
  {
    assert Transform("lowercase", "DEBUG") == "debug";
  }

  /** An unknown transform name keeps the label as written. */
  lemma CreateTagUntransformed()
    ensures CreateTag(TestTag().(transform := "none"), TestLabels(), "MiXeD") == "[MiXeD]"
  {
    assert Transform("none", "MiXeD") == "MiXeD";
  }

  datatype Color = Color(r: u8, g: u8, b: u8)

  const White := Color(255, 255, 255)

  /** Component `k` of a colour: red, green, blue. */
  function Component(c: Color, k: nat): u8
    requires k < 3
  {
    if k == 0 then c.r else if k == 1 then c.g else c.b
  }

  /** `hex_to_color`: leading `#`s are dropped; six remaining characters give
      one component per pair, its two hex digits read high then low (a `+`
      before a single digit is that digit), and a pair that is not a number
      reads as 255; any other length is white. */
  function HexToColor(hex: string): (r: Color)
    requires IsAscii(hex)
    ensures |TrimStartChar(hex, '#')| != 6 ==> r == White
    ensures var h := TrimStartChar(hex, '#');
            |h| == 6 ==> forall k :: 0 <= k < 3 ==>
              && (DigitValue(h[2 * k]).Some? && DigitValue(h[2 * k + 1]).Some? ==>
                    Component(r, k) == 16 * DigitValue(h[2 * k]).value + DigitValue(h[2 * k + 1]).value)
              && (DigitValue(h[2 * k + 1]).None? || (h[2 * k] != '+' && DigitValue(h[2 * k]).None?) ==>
                    Component(r, k) == 255)
              && (h[2 * k] == '+' && DigitValue(h[2 * k + 1]).Some? ==>
                    Component(r, k) == DigitValue(h[2 * k + 1]).value)
  {
    var h := TrimStartChar(hex, '#');
    if |h| == 6 then
      var c := Color(ParseByte(h[0..2]).GetOr(255), ParseByte(h[2..4]).GetOr(255), ParseByte(h[4..6]).GetOr(255));
      PairComponents(h, c);
      c
    else White
  }

  /** Every pair of a six-character string, read as its component. */
  lemma PairComponents(h: string, c: Color)
    requires |h| == 6
    requires c == Color(ParseByte(h[0..2]).GetOr(255), ParseByte(h[2..4]).GetOr(255), ParseByte(h[4..6]).GetOr(255))
    ensures forall k :: 0 <= k < 3 ==>
              && (DigitValue(h[2 * k]).Some? && DigitValue(h[2 * k + 1]).Some? ==>
                    Component(c, k) == 16 * DigitValue(h[2 * k]).value + DigitValue(h[2 * k + 1]).value)
              && (DigitValue(h[2 * k + 1]).None? || (h[2 * k] != '+' && DigitValue(h[2 * k]).None?) ==>
                    Component(c, k) == 255)
              && (h[2 * k] == '+' && DigitValue(h[2 * k + 1]).Some? ==>
                    Component(c, k) == DigitValue(h[2 * k + 1]).value)
  {
    forall k | 0 <= k < 3
      ensures DigitValue(h[2 * k]).Some? && DigitValue(h[2 * k + 1]).Some? ==>
                Component(c, k) == 16 * DigitValue(h[2 * k]).value + DigitValue(h[2 * k + 1]).value
      ensures DigitValue(h[2 * k + 1]).None? || (h[2 * k] != '+' && DigitValue(h[2 * k]).None?) ==>
                Component(c, k) == 255
      ensures h[2 * k] == '+' && DigitValue(h[2 * k + 1]).Some? ==>
                Component(c, k) == DigitValue(h[2 * k + 1]).value
    {
      PairComponent(h, c, k);
    }
  }

  /** One pair of a six-character string, read as a component: two digits
      are high and low, a pair that is not a number is 255. */
  lemma PairComponent(h: string, c: Color, k: nat)
    requires |h| == 6 && k < 3
    requires Component(c, k) == ParseByte(h[2 * k..2 * k + 2]).GetOr(255)
    ensures DigitValue(h[2 * k]).Some? && DigitValue(h[2 * k + 1]).Some? ==>
              Component(c, k) == 16 * DigitValue(h[2 * k]).value + DigitValue(h[2 * k + 1]).value
    ensures DigitValue(h[2 * k + 1]).None? || (h[2 * k] != '+' && DigitValue(h[2 * k]).None?) ==>
              Component(c, k) == 255
    ensures h[2 * k] == '+' && DigitValue(h[2 * k + 1]).Some? ==>
              Component(c, k) == DigitValue(h[2 * k + 1]).value
  {
    var p := h[2 * k..2 * k + 2];
    assert p[0] == h[2 * k] && p[1] == h[2 * k + 1];
  }

  /** The lower-case `#rrggbb` rendering of a colour, with `k` leading `#`. */
  function ToHex(c: Color, k: nat): (s: string)
    ensures IsAscii(s)
    ensures |s| == k + 6
  {
    var s := Repeat('#', k) + Hex2(c.r) + Hex2(c.g) + Hex2(c.b);
    assert forall i :: 0 <= i < |s| ==> s[i] == '#' || s[i] in Hex2(c.r) + Hex2(c.g) + Hex2(c.b);
    s
  }

  /** Rendering a colour and resolving it gives the colour back, however
      many `#` lead the string. */
  lemma HexToColorRoundTrip(c: Color, k: nat)
    ensures HexToColor(ToHex(c, k)) == c
  {
    var h := Hex2(c.r) + Hex2(c.g) + Hex2(c.b);
    assert ToHex(c, k) == Repeat('#', k) + h;
    TrimStartCharPrefix('#', k, h);
    Pairs(Hex2(c.r), Hex2(c.g), Hex2(c.b));
    ParseHex2(c.r);
    ParseHex2(c.g);
    ParseHex2(c.b);
  }

  /** The three pairs of a six-character string. */
  lemma Pairs(a: string, b: string, c: string)
    requires |a| == 2 && |b| == 2 && |c| == 2
    ensures (a + b + c)[0..2] == a && (a + b + c)[2..4] == b && (a + b + c)[4..6] == c
  {
  }

  /** A string whose trimmed form is three given pairs resolves pair by
      pair. */
  lemma HexToColorOfPairs(hex: string, a: string, b: string, c: string)
    requires IsAscii(hex) && |a| == 2 && |b| == 2 && |c| == 2
    requires TrimStartChar(hex, '#') == a + b + c
    ensures HexToColor(hex) == Color(ParseByte(a).GetOr(255), ParseByte(b).GetOr(255), ParseByte(c).GetOr(255))
  {
    Pairs(a, b, c);
  }

  /** Trimming stops at the first character that is not `#`. */
  lemma NoHash(s: string)
    requires |s| > 0 && s[0] != '#'
    ensures TrimStartChar(s, '#') == s
    ensures TrimStartChar("#" + s, '#') == s
    ensures TrimStartChar("#" + ("#" + s), '#') == s
  {
    assert ("#" + s)[1..] == s;
    assert ("#" + ("#" + s))[1..] == "#" + s;
  }

  /** A colour the factory tests expect: upper-case digits after `#`. */
  lemma HexToColorUpper()
    ensures HexToColor("#FF5500") == Color(255, 85, 0)
  {
    NoHash("FF5500");
    assert "#FF5500" == "#" + "FF5500" && "FF5500" == "FF" + "55" + "00";
    HexToColorOfPairs("#FF5500", "FF", "55", "00");
    assert ParseByte("FF") == Some(255) && ParseByte("55") == Some(85) && ParseByte("00") == Some(0);
  }

  /** A colour the factory tests expect: lower-case digits without `#`. */
  lemma HexToColorLower()
    ensures HexToColor("aabbcc") == Color(170, 187, 204)
  {
    NoHash("aabbcc");
    assert "aabbcc" == "aa" + "bb" + "cc";
    HexToColorOfPairs("aabbcc", "aa", "bb", "cc");
    assert ParseByte("aa") == Some(170) && ParseByte("bb") == Some(187) && ParseByte("cc") == Some(204);
  }

  /** A string that does not leave six characters is white. */
  lemma HexToColorShort()
    ensures HexToColor("#FFF") == White
    ensures HexToColor("") == White
  {
    assert TrimStartChar("#FFF", '#') == "FFF";
  }

  /** Every leading `#` is dropped; a pair that does not parse is 255, and
      `+f` parses as 15. */
  lemma HexToColorLenient()
    ensures HexToColor("##zz00+f") == Color(255, 0, 15)
  {
    NoHash("zz00+f");
    assert "##zz00+f" == "#" + ("#" + "zz00+f") && "zz00+f" == "zz" + "00" + "+f";
    HexToColorOfPairs("##zz00+f", "zz", "00", "+f");
    assert ParseByte("zz") == None by { assert DigitValue('z') == None; }
    assert ParseByte("00") == Some(0) by { assert DigitValue('0') == Some(0); }
    assert ParseByte("+f") == Some(15) by { assert DigitValue('f') == Some(15); }
  }
}
