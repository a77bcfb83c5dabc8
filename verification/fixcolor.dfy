/** `hex_to_rgb`, `rgb_to_luminance` and `convert_color` of `fixcolor.py`:
    turning one colour string into the grey of the same luminance.

    A Python call either returns a value, returns `None`, or raises; the
    model keeps all three apart, because the line loop treats them
    differently (`None` leaves the colour alone, an exception ends the
    program). */
module FixColor {
  import opened CharClass
  import opened Options
  import opened Strings
  import opened Tokens
  import opened TokenText

  /** The exceptions `convert_color` can raise: unpacking `None` into
      `r, g, b`, `int(_, 16)` on something that is not a number, and
      `match.group(4)` on a match without a fourth group or on `True`. */
  datatype Error = TypeError | ValueError | IndexError | AttributeError

  datatype Outcome<T> = Returns(value: T) | ReturnsNone | Raises(error: Error)

  /** Three colour channels, as Python integers. */
  datatype Rgb = Rgb(r: int, g: int, b: int)

  // ---------------------------------------------------------------------
  // hex_to_rgb
  // ---------------------------------------------------------------------

  /** `int(p, 16)` for a two-character string: two hex digits, or one hex
      digit with whitespace on either side of it or a sign before it. */
  function IntBase16(p: string): (v: Option<int>)
    requires |p| == 2
    ensures v.Some? ==> -15 <= v.value < 256
    ensures IsHexDigit(p[0]) && IsHexDigit(p[1]) ==> v == Some(HexNumber(p))
    ensures v.None? <==> !(IsHexDigit(p[1]) && (IsHexDigit(p[0]) || IsIntSpace(p[0]) || p[0] in "+-"))
                         && !(IsHexDigit(p[0]) && IsIntSpace(p[1]))
  {
    if IsHexDigit(p[0]) && IsHexDigit(p[1]) then
      HexPair(p);
      Some(HexValue(p[0]) * 16 + HexValue(p[1]))
    else if IsIntSpace(p[0]) && IsHexDigit(p[1]) then Some(HexValue(p[1]))
    else if IsHexDigit(p[0]) && IsIntSpace(p[1]) then Some(HexValue(p[0]))
    else if p[0] == '+' && IsHexDigit(p[1]) then Some(HexValue(p[1]))
    else if p[0] == '-' && IsHexDigit(p[1]) then Some(0 - HexValue(p[1]))
    else None
  }

  /** `hex_to_rgb`: `None` unless the string is `#` and six more
      characters; then the three two-character slices read in base 16,
      raising `ValueError` if one is not a number. */
  function HexToRgb(s: string): (r: Outcome<Rgb>)
    ensures r.ReturnsNone? <==> !(StartsWith(s, "#") && |s| == 7)
    ensures r.Raises? ==> r.error == ValueError
    ensures r.Returns? ==> -15 <= r.value.r < 256 && -15 <= r.value.g < 256 && -15 <= r.value.b < 256
  {
    if !StartsWith(s, "#") || |s| != 7 then ReturnsNone
    else
      var r, g, b := IntBase16(s[1..3]), IntBase16(s[3..5]), IntBase16(s[5..7]);
      if r.Some? && g.Some? && b.Some? then Returns(Rgb(r.value, g.value, b.value))
      else Raises(ValueError)
  }

  /** The channels `hex_to_rgb` reads from six hex digits. */
  function HexChannels(d: string): Rgb
    requires |d| == 6 && AllHexDigits(d)
  {
    Rgb(HexNumber(d[0..2]), HexNumber(d[2..4]), HexNumber(d[4..6]))
  }

  /** Any six hex digits, in any mix of cases, are read as their three
      digit pairs. */
  lemma HexToRgbOfToken(d: string)
    requires |d| == 6 && AllHexDigits(d)
    ensures HexToRgb("#" + d) == Returns(HexChannels(d))
    ensures var c := HexChannels(d); 0 <= c.r < 256 && 0 <= c.g < 256 && 0 <= c.b < 256
  {
    HexSlices(d);
    IntBase16OfPair(d, 0);
    IntBase16OfPair(d, 2);
    IntBase16OfPair(d, 4);
  }

  /** `int(_, 16)` of a pair of a token's digits is their hex value. */
  lemma IntBase16OfPair(d: string, k: nat)
    requires |d| == 6 && AllHexDigits(d) && k <= 4
    ensures AllHexDigits(d[k..k + 2]) && IntBase16(d[k..k + 2]) == Some(HexNumber(d[k..k + 2]))
  {
    var p := d[k..k + 2];
    assert p[0] == d[k] && p[1] == d[k + 1];
    assert IsHexDigit(p[0]) && IsHexDigit(p[1]);
    HexPair(p);
  }

  /** Writing three bytes with `02x` and reading them back gives the same
      bytes. */
  lemma HexToRgbOfFormat(c: Rgb)
    requires 0 <= c.r < 256 && 0 <= c.g < 256 && 0 <= c.b < 256
    ensures HexToRgb("#" + Hex02(c.r) + Hex02(c.g) + Hex02(c.b)) == Returns(c)
  {
    HexPairs("#", Hex02(c.r), Hex02(c.g), Hex02(c.b));
    IntBase16OfHex02(c.r);
    IntBase16OfHex02(c.g);
    IntBase16OfHex02(c.b);
  }

  /** `int(f"{n:02x}", 16) == n` for a byte. */
  lemma IntBase16OfHex02(n: nat)
    requires n < 256
    ensures |Hex02(n)| == 2 && IntBase16(Hex02(n)) == Some(n)
  {
    var h := Hex02(n);
    assert IsLowerHex(h[0]) && IsLowerHex(h[1]);
  }

  /** The slices `hex_to_rgb` reads from `#` and six characters. */
  lemma HexSlices(d: string)
    requires |d| == 6
    ensures var s := "#" + d;
      |s| == 7 && StartsWith(s, "#") && s[1..3] == d[0..2] && s[3..5] == d[2..4] && s[5..7] == d[4..6]
  {
    var s := "#" + d;
    assert s[..1] == "#";
    assert s[1..3] == d[0..2];
    assert s[3..5] == d[2..4];
    assert s[5..7] == d[4..6];
  }

  /** The slices `hex_to_rgb` reads from `#` and three pairs. */
  lemma HexPairs(hash: string, x: string, y: string, z: string)
    requires hash == "#" && |x| == 2 && |y| == 2 && |z| == 2
    ensures var s := hash + x + y + z;
      |s| == 7 && StartsWith(s, "#") && s[1..3] == x && s[3..5] == y && s[5..7] == z
  {
    var s := hash + x + y + z;
    assert s[..1] == "#";
    assert s[1..3] == x;
    assert s[3..5] == y;
    assert s[5..7] == z;
  }

  // ---------------------------------------------------------------------
  // rgb_to_luminance
  // ---------------------------------------------------------------------

  function Min3(c: Rgb): int {
    if c.r <= c.g && c.r <= c.b then c.r else if c.g <= c.b then c.g else c.b
  }

  function Max3(c: Rgb): int {
    if c.r >= c.g && c.r >= c.b then c.r else if c.g >= c.b then c.g else c.b
  }

  /** `int(0.299 * r + 0.587 * g + 0.114 * b)`, in exact arithmetic:
      `int` of a float truncates toward zero. The weights add up to one, so
      the luminance lies between the smallest and the largest channel. */
  function Luminance(c: Rgb): (l: int)
    ensures Min3(c) <= l <= Max3(c)
  {
    var w := 299 * c.r + 587 * c.g + 114 * c.b;
    assert 1000 * Min3(c) <= w <= 1000 * Max3(c);
    if w >= 0 then w / 1000 else -((-w) / 1000)
  }

  /** A grey is its own luminance. */
  lemma LuminanceGrey(v: int)
    ensures Luminance(Rgb(v, v, v)) == v
  {
  }

  /** Brightening any channel never darkens the grey. */
  lemma LuminanceMonotone(c: Rgb, c': Rgb)
    requires c.r <= c'.r && c.g <= c'.g && c.b <= c'.b
    ensures Luminance(c) <= Luminance(c')
  {
    var w := 299 * c.r + 587 * c.g + 114 * c.b;
    var w' := 299 * c'.r + 587 * c'.g + 114 * c'.b;
    assert w <= w';
    if w < 0 && w' < 0 {
      assert (-w') / 1000 <= (-w) / 1000;
    } else if w >= 0 {
      assert w / 1000 <= w' / 1000;
    }
  }

  // ---------------------------------------------------------------------
  // Formatting
  // ---------------------------------------------------------------------

  /** `f"{n:02x}"`: a sign for negative numbers, which already fills the
      width of two. */
  function Format02x(n: int): (h: string)
    ensures n >= 0 ==> h == Hex02(n)
    ensures n >= 0 ==> AllLowerHex(h) && HexNumber(h) == n && (n < 256 <==> |h| == 2)
    ensures n < 0 ==> |h| >= 2 && h[0] == '-' && AllLowerHex(h[1..]) && HexNumber(h[1..]) == -n
  {
    if n >= 0 then Hex02(n) else "-" + HexDigits(-n)
  }

  /** `f"{n}"`. */
  function FormatInt(n: int): (d: string)
    ensures n >= 0 ==> d == Decimal(n)
    ensures n >= 0 ==> AllDigits(d) && DecimalValue(d) == n && (d[0] == '0' ==> d == "0")
    ensures n < 0 ==> |d| >= 2 && d[0] == '-' && AllDigits(d[1..]) && DecimalValue(d[1..]) == -n
  {
    if n >= 0 then Decimal(n) else "-" + Decimal(-n)
  }

  // ---------------------------------------------------------------------
  // convert_color
  // ---------------------------------------------------------------------

  /** What the variable `match` holds once it is truthy: `True` in the hex
      branch, a match object with its captured groups otherwise. */
  datatype MatchValue = MatchedTrue | MatchedGroups(groups: seq<string>)

  /** `match.group(k)`, for `k >= 1`. */
  function Group(m: MatchValue, k: nat): (r: Outcome<string>)
    requires k >= 1
    ensures !r.ReturnsNone?
    ensures r.Returns? <==> m.MatchedGroups? && k <= |m.groups|
  {
    match m
    case MatchedTrue => Raises(AttributeError)
    case MatchedGroups(gs) => if k <= |gs| then Returns(gs[k - 1]) else Raises(IndexError)
  }

  /** The captured `(\d+)` groups of a call: the digits, not the
      whitespace before them. */
  function Captures(args: seq<Arg>): (gs: seq<string>)
    ensures |gs| == |args|
    ensures forall k :: 0 <= k < |args| ==> gs[k] == args[k].digits
  {
    seq(|args|, k requires 0 <= k < |args| => args[k].digits)
  }

  /** `int(...)` of a captured group. */
  function GroupValue(a: Arg): nat
    requires GroupOk(a)
  {
    GroupOkMeans(a);
    DecimalValue(a.digits)
  }

  /** `map(int, match.groups())` unpacked into `r, g, b` (and `_`). */
  function CallChannels(args: seq<Arg>): Rgb
    requires |args| >= 3 && ArgsOk(args)
  {
    ArgsOkAt(args, 0);
    ArgsOkAt(args, 1);
    ArgsOkAt(args, 2);
    Rgb(GroupValue(args[0]), GroupValue(args[1]), GroupValue(args[2]))
  }

  /** The text of a hex grey: the `02x` digits of `l`, three times. */
  function GreyHex(l: int): string {
    "#" + Format02x(l) + Format02x(l) + Format02x(l)
  }

  /** The text of a functional grey: `rgb(l,l,l)`. */
  function GreyRgb(l: int): string {
    "rgb(" + FormatInt(l) + "," + FormatInt(l) + "," + FormatInt(l) + ")"
  }

  /** The tail of `convert_color` once `match` is truthy: the grey in the
      notation of the input, and for an input holding `rgba` the fourth
      group appended. */
  function Recolour(s: string, c: Rgb, m: MatchValue): (r: Outcome<string>)
    ensures !r.ReturnsNone?
    ensures r.Returns? ==> |r.value| > 0
  {
    var l := Luminance(c);
    var grey := if StartsWith(s, "#") then GreyHex(l) else GreyRgb(l);
    if Contains(s, "rgba") then
      match Group(m, 4)
      case Returns(g) => Returns(grey + ", " + g)
      case ReturnsNone => assert false; ReturnsNone
      case Raises(e) => Raises(e)
    else Returns(grey)
  }

  /** The branch of `convert_color` for a string that does not start with
      `#`: `re.match` of a call pattern, `None` when it fails. */
  function RecolourCall(s: string, t: Option<Token>): (r: Outcome<string>)
    requires t.Some? ==> t.value.Call? && |t.value.args| >= 3 && ArgsOk(t.value.args)
    ensures r.Returns? ==> |r.value| > 0
  {
    match t
    case None => ReturnsNone
    case Some(call) => Recolour(s, CallChannels(call.args), MatchedGroups(Captures(call.args)))
  }

  /** `convert_color`. The string starting with `#` goes to `hex_to_rgb`;
      one holding `rgb` to the three-group pattern; the `rgba` branch after
      it is kept as written. */
  function ConvertColor(s: string): (r: Outcome<string>)
    ensures r.Returns? ==> |r.value| > 0
  {
    if StartsWith(s, "#") then
      match HexToRgb(s)
      case ReturnsNone => Raises(TypeError)
      case Raises(e) => Raises(e)
      case Returns(c) => Recolour(s, c, MatchedTrue)
    else if Contains(s, "rgb") then
      MatchRgb3Sound(s);
      RecolourCall(s, MatchRgb3(s))
    else if Contains(s, "rgba") then
      MatchRgb4Sound(s);
      RecolourCall(s, MatchRgb4(s))
    else ReturnsNone
  }

  // ---------------------------------------------------------------------
  // What convert_color does with each kind of string
  // ---------------------------------------------------------------------

  /** Every string holding `rgba` holds `rgb`, so the `elif 'rgba'` branch
      is never taken. */
  lemma RgbaHoldsRgb(s: string)
    requires Contains(s, "rgba")
    ensures Contains(s, "rgb")
  {
    var i :| 0 <= i <= |s| - 4 && OccursAt(s, "rgba", i);
    assert s[i..i + 3] == s[i..i + 4][..3];
    assert OccursAt(s, "rgb", i);
  }

  /** A string holding `rgba` is never converted: a hex string raises
      before or at `match.group(4)` on `True`, and a call string either
      fails the three-group pattern or, matching it, has no fourth group. */
  lemma RgbaNeverConverts(s: string)
    requires Contains(s, "rgba")
    ensures !ConvertColor(s).Returns?
    ensures !StartsWith(s, "#") ==>
      ConvertColor(s) == if MatchRgb3(s).Some? then Raises(IndexError) else ReturnsNone
  {
    RgbaHoldsRgb(s);
  }

  /** `hex_to_rgb` returning `None` makes the unpacking raise `TypeError`. */
  lemma ConvertBadHexLength(s: string)
    requires StartsWith(s, "#") && |s| != 7
    ensures ConvertColor(s) == Raises(TypeError)
  {
  }

  /** A string neither starting with `#` nor holding `rgb` is left alone. */
  lemma ConvertNoColour(s: string)
    requires !StartsWith(s, "#") && !Contains(s, "rgb")
    ensures ConvertColor(s) == ReturnsNone
  {
    if Contains(s, "rgba") {
      RgbaHoldsRgb(s);
    }
  }

  /** A hex token becomes the hex grey of its luminance. */
  lemma ConvertHexToken(d: string)
    requires WellFormed(HexCode(d))
    ensures 0 <= Luminance(HexChannels(d)) < 256
    ensures ConvertColor("#" + d) == Returns(GreyHex(Luminance(HexChannels(d))))
  {
    HexToRgbOfToken(d);
    HexSlices(d);
    TokenContains(HexCode(d));
  }

  /** An `rgb(...)` token with three groups becomes the functional grey of
      its luminance. */
  lemma ConvertRgbToken(args: seq<Arg>)
    requires WellFormed(Call("rgb", args)) && |args| == 3
    ensures ConvertColor(Render(Call("rgb", args))) == Returns(GreyRgb(Luminance(CallChannels(args))))
  {
    var t := Call("rgb", args);
    var s := Render(t);
    CallTextFacts(t);
    MatchRendered(t, []);
    assert s + [] == s;
  }

  /** The text of a call token neither starts with `#` nor is empty. */
  lemma CallTextFacts(t: Token)
    requires WellFormed(t) && t.Call?
    ensures |Render(t)| > 0 && Render(t)[0] == 'r' && !StartsWith(Render(t), "#")
    ensures Contains(Render(t), "rgb") <==> t.name != "rg"
    ensures Contains(Render(t), "rgba") <==> t.name == "rgba"
  {
    TokenContains(t);
    assert Render(t)[0] == t.name[0];
  }

  /** Calls named `rg`, and calls with four groups, are left alone. */
  lemma ConvertSkippedCall(t: Token)
    requires WellFormed(t) && t.Call? && (t.name == "rg" || |t.args| == 4)
    ensures ConvertColor(Render(t)) == ReturnsNone
  {
    var s := Render(t);
    CallTextFacts(t);
    MatchRendered(t, []);
    assert s + [] == s;
    if t.name == "rgba" {
      RgbaNeverConverts(s);
    }
  }

  /** Which tokens `convert_color` turns grey: hex codes and three-group
      `rgb(...)`. */
  predicate Converted(t: Token) {
    t.HexCode? || (t.name == "rgb" && |t.args| == 3)
  }

  /** On every token the scanner can find, `convert_color` with exact
      luminance never raises, and it returns a colour exactly for the
      tokens `Converted` names. */
  lemma ConvertToken(t: Token)
    requires WellFormed(t)
    ensures !ConvertColor(Render(t)).Raises?
    ensures ConvertColor(Render(t)).Returns? <==> Converted(t)
  {
    match t
    case HexCode(d) => ConvertHexToken(d);
    case Call(name, args) =>
      if name == "rgb" && |args| == 3 {
        ConvertRgbToken(args);
      } else {
        ConvertSkippedCall(t);
      }
  }

  // ---------------------------------------------------------------------
  // Greys are left as they are
  // ---------------------------------------------------------------------

  /** The hex grey of a byte, as a token. */
  function GreyHexToken(l: nat): (t: Token)
    requires l < 256
    ensures WellFormed(t) && Render(t) == GreyHex(l)
  {
    var h := Hex02(l);
    var d := h + h + h;
    assert forall k :: 0 <= k < 6 ==> d[k] == h[k % 2];
    HexCode(d)
  }

  /** The functional grey of a number, as a token. */
  function GreyRgbToken(l: nat): Token {
    var a := Arg("", Decimal(l));
    Call("rgb", [a, a, a])
  }

  /** The functional grey token is well formed, reads as `rgb(l,l,l)`,
      and its channels are all `l`. */
  lemma GreyRgbTokenFacts(l: nat)
    ensures var t := GreyRgbToken(l);
      && WellFormed(t) && t.Call? && t.name == "rgb" && |t.args| == 3
      && Render(t) == GreyRgb(l) && CallChannels(t.args) == Rgb(l, l, l)
  {
    var a := Arg("", Decimal(l));
    DigitRunUnique(a.digits, 0, |a.digits|);
    ThreeArgs(a);
    GreyRgbText(l);
  }

  lemma GreyRgbText(l: nat)
    ensures Render(GreyRgbToken(l)) == GreyRgb(l)
  {
    var d := Decimal(l);
    var a := Arg("", d);
    assert ArgText(a) == d;
    ThreeText(a);
    RgbText(d);
    assert Render(GreyRgbToken(l)) == "rgb" + "(" + (d + "," + d + "," + d) + ")";
  }

  /** The text of three copies of one group. */
  lemma ThreeText(a: Arg)
    ensures RenderArgs([a, a, a]) == ArgText(a) + "," + ArgText(a) + "," + ArgText(a)
  {
    var args := [a, a, a];
    assert args[1..] == [a, a] && args[1..][1..] == [a];
    assert RenderArgs([a, a]) == ArgText(a) + "," + ArgText(a);
  }

  /** Three copies of a well-formed group are well formed. */
  lemma ThreeArgs(a: Arg)
    requires GroupOk(a)
    ensures ArgsOk([a, a, a])
  {
    var args := [a, a, a];
    assert args[1..] == [a, a] && args[1..][1..] == [a] && [a][1..] == [];
    assert ArgsOk([a]) && ArgsOk([a, a]);
  }

  /** The f-string `rgb({x},{x},{x})` is the text of a call. */
  lemma RgbText(x: string)
    ensures "rgb" + "(" + (x + "," + x + "," + x) + ")" == "rgb(" + x + "," + x + "," + x + ")"
  {
  }

  /** The channels read back from a hex grey are the grey's. */
  lemma HexChannelsOfGrey(l: nat)
    requires l < 256
    ensures GreyHexToken(l).digits[0..2] == Hex02(l)
    ensures HexChannels(GreyHexToken(l).digits) == Rgb(l, l, l)
  {
    var h := Hex02(l);
    var d := GreyHexToken(l).digits;
    assert d == h + h + h;
    assert d[0..2] == h && d[2..4] == h && d[4..6] == h;
  }

  /** A lower-case hex grey `#llllll` converts to itself. */
  lemma GreyHexFixed(l: nat)
    requires l < 256
    ensures ConvertColor(GreyHex(l)) == Returns(GreyHex(l))
  {
    var t := GreyHexToken(l);
    HexChannelsOfGrey(l);
    ConvertHexToken(t.digits);
    LuminanceGrey(l);
  }

  /** A functional grey `rgb(l,l,l)`, in plain decimal with no spaces,
      converts to itself. */
  lemma GreyRgbFixed(l: nat)
    ensures ConvertColor(GreyRgb(l)) == Returns(GreyRgb(l))
  {
    var t := GreyRgbToken(l);
    GreyRgbTokenFacts(l);
    ConvertRgbToken(t.args);
    LuminanceGrey(l);
  }

  /** Converting a converted token again changes nothing: its grey is a
      fixed point. */
  lemma ConvertIdempotent(t: Token)
    requires WellFormed(t) && ConvertColor(Render(t)).Returns?
    ensures var g := ConvertColor(Render(t)).value;
      ConvertColor(g) == Returns(g)
  {
    ConvertToken(t);
    match t
    case HexCode(d) =>
      ConvertHexToken(d);
      GreyHexFixed(Luminance(HexChannels(d)));
    case Call(name, args) =>
      ConvertRgbToken(args);
      GreyRgbFixed(Luminance(CallChannels(args)));
  }
}
