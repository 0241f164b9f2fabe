/** Team colours: `hex_to_rgb` turns a hex colour string such as "#FF8000" into
    an (r, g, b) triple by parsing three two-character slices in base 16. */
module Colours {
  import opened Options

  datatype Rgb = Rgb(r: int, g: int, b: int)

  /** The colour used when the driver record has no team colour. */
  const DefaultTeamColour: string := "FFFFFF"

  function HexDigit(c: char): (d: Option<int>)
    ensures d.Some? ==> 0 <= d.value < 16
  {
    if '0' <= c <= '9' then Some(c as int - '0' as int)
    else if 'a' <= c <= 'f' then Some(c as int - 'a' as int + 10)
    else if 'A' <= c <= 'F' then Some(c as int - 'A' as int + 10)
    else None
  }

  /** The ASCII characters Python's `int` strips around a number: blank, tab,
      the line and page breaks, and the four separators 0x1C to 0x1F. */
  predicate IsSpace(c: char) {
    c == ' ' || c == '\t' || c == '\n' || c == '\r' || c == '\U{B}' || c == '\U{C}' || '\U{1C}' <= c <= '\U{1F}'
  }

  /** `int(s, 16)` on a slice of at most two characters: two hex digits, one hex
      digit, a sign followed by a digit, or a digit padded by one blank.
      Anything else (including the empty slice) raises, modelled as `None`. */
  function ParseHexField(s: string): (v: Option<int>)
    requires |s| <= 2
    ensures v.Some? ==> -15 <= v.value < 256
    ensures |s| == 0 ==> v.None?
    ensures |s| == 2 && HexDigit(s[0]).Some? && HexDigit(s[1]).Some? ==>
      v == Some(16 * HexDigit(s[0]).value + HexDigit(s[1]).value)
  {
    if |s| == 0 then None
    else if |s| == 1 then HexDigit(s[0])
    else
      var a, b := s[0], s[1];
      match (HexDigit(a), HexDigit(b))
      case (Some(hi), Some(lo)) => Some(16 * hi + lo)
      case (None, Some(lo)) =>
        if a == '+' || IsSpace(a) then Some(lo)
        else if a == '-' then Some(-lo)
        else None
      case (Some(hi), None) => if IsSpace(b) then Some(hi) else None
      case (None, None) => None
  }

  /** `str.lstrip("#")`: drops every leading '#'. */
  function StripHashes(s: string): (r: string)
    ensures |r| <= |s| && r == s[|s| - |r|..]
    ensures |r| > 0 ==> r[0] != '#'
    ensures forall i :: 0 <= i < |s| - |r| ==> s[i] == '#'
  {
    if |s| > 0 && s[0] == '#' then StripHashes(s[1..]) else s
  }

  /** Python slice `s[i:j]`, which clips to the string's end. */
  function Slice(s: string, i: nat, j: nat): (r: string)
    requires i <= j
    ensures |r| <= j - i
  {
    if j <= |s| then s[i..j] else if i <= |s| then s[i..] else []
  }

  function HexToRgb(hex: string): (c: Option<Rgb>)
    ensures c.Some? ==> |StripHashes(hex)| >= 5
    ensures c.Some? ==> -15 <= c.value.r < 256 && -15 <= c.value.g < 256 && -15 <= c.value.b < 256
  {
    var h := StripHashes(hex);
    match (ParseHexField(Slice(h, 0, 2)), ParseHexField(Slice(h, 2, 4)), ParseHexField(Slice(h, 4, 6)))
    case (Some(r), Some(g), Some(b)) => Some(Rgb(r, g, b))
    case _ => None
  }

  /** Upper-case hex digit for a value in [0, 16). */
  function DigitChar(d: int): (c: char)
    requires 0 <= d < 16
    ensures HexDigit(c) == Some(d)
    ensures c != '#'
  {
    if d < 10 then ('0' as int + d) as char else ('A' as int + d - 10) as char
  }

  predicate IsChannel(v: int) {
    0 <= v < 256
  }

  /** The six-digit form of a colour, the inverse of `HexToRgb`. */
  function ToHex(c: Rgb): (s: string)
    requires IsChannel(c.r) && IsChannel(c.g) && IsChannel(c.b)
    ensures |s| == 6
  {
    Channel(c.r) + Channel(c.g) + Channel(c.b)
  }

  /** Parsing the printed form of a colour, with any number of leading '#',
      gives the colour back. */
  lemma RoundTrip(c: Rgb, hashes: nat)
    requires IsChannel(c.r) && IsChannel(c.g) && IsChannel(c.b)
    ensures HexToRgb(seq(hashes, _ => '#') + ToHex(c)) == Some(c)
  {
    var hs := seq(hashes, _ => '#');
    var s := ToHex(c);
    var r, g, b := Channel(c.r), Channel(c.g), Channel(c.b);
    assert s == r + g + b && s[0] == r[0];
    StripHashesPrefix(hs, s);
    ThreeSlices(r, g, b);
    ChannelRoundTrip(c.r);
    ChannelRoundTrip(c.g);
    ChannelRoundTrip(c.b);
  }

  lemma ThreeSlices(r: string, g: string, b: string)
    requires |r| == 2 && |g| == 2 && |b| == 2
    ensures Slice(r + g + b, 0, 2) == r
    ensures Slice(r + g + b, 2, 4) == g
    ensures Slice(r + g + b, 4, 6) == b
  {
    var s := r + g + b;
    assert s[0..2] == r;
    assert s[2..4] == g;
    assert s[4..6] == b;
  }

  /** The two digits of one channel. */
  function Channel(v: int): (s: string)
    requires IsChannel(v)
    ensures |s| == 2
  {
    [DigitChar(v / 16), DigitChar(v % 16)]
  }

  lemma ChannelRoundTrip(v: int)
    requires IsChannel(v)
    ensures ParseHexField(Channel(v)) == Some(v)
  {
    var s := Channel(v);
    assert HexDigit(s[0]) == Some(v / 16) && HexDigit(s[1]) == Some(v % 16);
  }

  lemma {:induction false} StripHashesPrefix(hs: string, s: string)
    requires forall i :: 0 <= i < |hs| ==> hs[i] == '#'
    requires |s| > 0 && s[0] != '#'
    ensures StripHashes(hs + s) == s
  {
    if |hs| > 0 {
      assert (hs + s)[1..] == hs[1..] + s;
      StripHashesPrefix(hs[1..], s);
    } else {
      assert hs + s == s;
    }
  }

  /** Any string of six hex digits is a colour with channels in [0, 256). */
  lemma SixDigitsParse(s: string)
    requires |s| == 6 && s[0] != '#'
    requires forall i :: 0 <= i < 6 ==> HexDigit(s[i]).Some?
    ensures HexToRgb(s).Some?
    ensures IsChannel(HexToRgb(s).value.r) && IsChannel(HexToRgb(s).value.g) && IsChannel(HexToRgb(s).value.b)
  {
    assert StripHashes(s) == s;
    assert Slice(s, 0, 2) == s[0..2];
    assert Slice(s, 2, 4) == s[2..4];
    assert Slice(s, 4, 6) == s[4..6];
  }

  /** The default team colour is white. */
  lemma DefaultIsWhite()
    ensures HexToRgb(DefaultTeamColour) == Some(Rgb(255, 255, 255))
  {
    assert StripHashes(DefaultTeamColour) == DefaultTeamColour;
    assert Slice(DefaultTeamColour, 0, 2) == "FF";
    assert Slice(DefaultTeamColour, 2, 4) == "FF";
    assert Slice(DefaultTeamColour, 4, 6) == "FF";
  }

  /** A string shorter than six digits has an empty third slice and fails. */
  lemma ShortStringFails()
    ensures HexToRgb("FFF").None?
  {
    assert StripHashes("FFF") == "FFF";
    assert Slice("FFF", 4, 6) == [];
  }

  /** The separator 0x1C counts as blank: `int("\x1cF", 16)` is 15. */
  lemma SeparatorIsBlank()
    ensures ParseHexField("\U{1C}F") == Some(15)
  {
    assert IsSpace('\U{1C}') && HexDigit('\U{1C}').None? && HexDigit('F') == Some(15);
  }

  /** A sign inside a slice is accepted, as base-16 `int` accepts it. */
  lemma SignedSliceAccepted()
    ensures HexToRgb("#-1FFFF") == Some(Rgb(-1, 255, 255))
  {
    var h := "-1FFFF";
    assert "#-1FFFF"[1..] == h;
    assert StripHashes(h) == h;
    assert Slice(h, 0, 2) == "-1";
    assert HexDigit('-').None? && HexDigit('1') == Some(1);
    assert ParseHexField("-1") == Some(-1);
    assert Slice(h, 2, 4) == "FF";
    assert Slice(h, 4, 6) == "FF";
  }
}
