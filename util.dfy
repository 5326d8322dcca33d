/** The helpers of util.go: integer max/min, text statistics, rectangle corners
    and the hex colour parser used by the colour theme. */
module Util {
  import opened GoStrings
  import opened Geometry

  function Max(a: int, b: int): (m: int)
    ensures m >= a && m >= b
    ensures m == a || m == b
  {
    if a > b then a else b
  }

  function Min(a: int, b: int): (m: int)
    ensures m <= a && m <= b
    ensures m == a || m == b
  {
    if a < b then a else b
  }

  /** `text_stats`: the number of lines and the length of the longest line, in that
      order (its own comment names them the other way round). */
  method TextStats(lines: seq<Str>) returns (count: int, widest: int)
    ensures count == |lines|
    ensures widest >= 0
    ensures forall i :: 0 <= i < |lines| ==> |lines[i]| <= widest
    ensures |lines| > 0 ==> exists i :: 0 <= i < |lines| && |lines[i]| == widest
    ensures |lines| == 0 ==> widest == 0
  {
    widest := 0;
    for k := 0 to |lines|
      invariant widest >= 0
      invariant forall i :: 0 <= i < k ==> |lines[i]| <= widest
      invariant k > 0 ==> exists i :: 0 <= i < k && |lines[i]| == widest
      invariant k == 0 ==> widest == 0
    {
      widest := Max(widest, |lines[k]|);
    }
    count := |lines|;
  }

  function TopLeft(r: Rect): (p: Point)
    ensures p.x == r.min.x && p.y == r.min.y
  {
    r.min
  }

  function TopRight(r: Rect): (p: Point)
    ensures p.x == r.max.x && p.y == r.min.y
  {
    Point(r.max.x, r.min.y)
  }

  function BottomLeft(r: Rect): (p: Point)
    ensures p.x == r.min.x && p.y == r.max.y
  {
    Point(r.min.x, r.max.y)
  }

  function BottomRight(r: Rect): (p: Point)
    ensures p.x == r.max.x && p.y == r.max.y
  {
    r.max
  }

  /** Of the four corners of a non-empty rectangle only the top-left one lies in it,
      because `In` excludes the maximum edges. */
  lemma CornersOfNonEmptyRect(r: Rect)
    requires r.min.x < r.max.x && r.min.y < r.max.y
    ensures In(TopLeft(r), r)
    ensures !In(TopRight(r), r) && !In(BottomLeft(r), r) && !In(BottomRight(r), r)
    ensures Rect(TopLeft(r), BottomRight(r)) == r
  {
  }

  type Channel = x: int | 0 <= x < 256

  /** `color.RGBA`. */
  datatype RGBA = RGBA(r: Channel, g: Channel, b: Channel, a: Channel)

  const TransparentBlack := RGBA(0, 0, 0, 0)

  predicate IsHexDigit(b: Byte) {
    '0' <= b <= '9' || 'a' <= b <= 'f' || 'A' <= b <= 'F'
  }

  /** The nested `hexToByte` of ParseHexColor: a digit's value, 0 for any other byte. */
  function HexToByte(b: Byte): (v: nat)
    ensures v < 16
    ensures !IsHexDigit(b) ==> v == 0
  {
    if '0' <= b <= '9' then b as int - '0' as int
    else if 'a' <= b <= 'f' then b as int - 'a' as int + 10
    else if 'A' <= b <= 'F' then b as int - 'A' as int + 10
    else 0
  }

  const LowerHexDigits: Str := "0123456789abcdef"
  const UpperHexDigits: Str := "0123456789ABCDEF"

  /** A digit is read back as its position among the digits, in either case. */
  lemma HexDigitValue(k: nat)
    requires k < 16
    ensures |LowerHexDigits| == 16 && |UpperHexDigits| == 16
    ensures HexToByte(LowerHexDigits[k]) == k && HexToByte(UpperHexDigits[k]) == k
  {
    assert LowerHexDigits == ['0','1','2','3','4','5','6','7','8','9','a','b','c','d','e','f'];
    assert UpperHexDigits == ['0','1','2','3','4','5','6','7','8','9','A','B','C','D','E','F'];
  }

  /** The colour ParseHexColor computes for `s` (the byte arithmetic of the source
      cannot overflow: 15 << 4 + 15 and 15 * 17 are both 255). */
  function HexColor(s: Str): RGBA
    requires |s| > 0
  {
    if s[0] != '#' then TransparentBlack
    else if |s| == 7 then
      RGBA(HexToByte(s[1]) * 16 + HexToByte(s[2]),
           HexToByte(s[3]) * 16 + HexToByte(s[4]),
           HexToByte(s[5]) * 16 + HexToByte(s[6]), 0xff)
    else if |s| == 4 then
      RGBA(HexToByte(s[1]) * 17, HexToByte(s[2]) * 17, HexToByte(s[3]) * 17, 0xff)
    else RGBA(0, 0, 0, 0xff)
  }

  /** `ParseHexColor`: fills the named result field by field, alpha first. */
  method ParseHexColor(s: Str) returns (c: RGBA)
    requires |s| > 0
    ensures c == HexColor(s)
  {
    c := TransparentBlack;
    c := c.(a := 0xff);
    if s[0] != '#' {
      return TransparentBlack;
    }
    if |s| == 7 {
      c := c.(r := HexToByte(s[1]) * 16 + HexToByte(s[2]));
      c := c.(g := HexToByte(s[3]) * 16 + HexToByte(s[4]));
      c := c.(b := HexToByte(s[5]) * 16 + HexToByte(s[6]));
    } else if |s| == 4 {
      c := c.(r := HexToByte(s[1]) * 17);
      c := c.(g := HexToByte(s[2]) * 17);
      c := c.(b := HexToByte(s[3]) * 17);
    }
  }

  /** A colour written as `#rrggbb` in lower case: the inverse partner of HexColor. */
  function FormatHex(c: RGBA): (s: Str)
    ensures |s| == 7 && s[0] == '#'
  {
    ['#', LowerHexDigits[c.r / 16], LowerHexDigits[c.r % 16],
          LowerHexDigits[c.g / 16], LowerHexDigits[c.g % 16],
          LowerHexDigits[c.b / 16], LowerHexDigits[c.b % 16]]
  }

  /** Reading a formatted opaque colour gives the colour back. */
  lemma HexColorRoundTrip(c: RGBA)
    requires c.a == 0xff
    ensures HexColor(FormatHex(c)) == c
  {
    HexDigitValue(c.r / 16); HexDigitValue(c.r % 16);
    HexDigitValue(c.g / 16); HexDigitValue(c.g % 16);
    HexDigitValue(c.b / 16); HexDigitValue(c.b % 16);
  }

  /** `#rgb` is the same colour as `#rrggbb`: a doubled digit d is 16*d + d = 17*d. */
  lemma ShortFormDoublesDigits(s: Str)
    requires |s| == 4 && s[0] == '#'
    ensures HexColor(s) == HexColor(['#', s[1], s[1], s[2], s[2], s[3], s[3]])
  {
  }

  /** Upper- and lower-case digits are read alike. */
  lemma HexDigitCaseInsensitive(k: nat)
    requires k < 6
    ensures HexToByte(('a' as int + k) as char) == HexToByte(('A' as int + k) as char) == 10 + k
  {
  }

  /** Without a leading '#' the colour is transparent black; with one, any length
      other than 4 and 7 gives opaque black; a '#' colour is always opaque. */
  lemma HexColorFallbacks(s: Str)
    requires |s| > 0
    ensures s[0] != '#' ==> HexColor(s) == TransparentBlack
    ensures s[0] == '#' ==> HexColor(s).a == 0xff
    ensures s[0] == '#' && |s| != 4 && |s| != 7 ==> HexColor(s) == RGBA(0, 0, 0, 0xff)
  {
  }
}
