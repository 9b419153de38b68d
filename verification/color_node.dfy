/** The colour picker node: a hex colour and its RGB components, kept side by side in the
    node's state. */
module ColorNode {
  import opened Js
  import NodeFactory

  predicate IsHexDigit(c: char) {
    ('0' <= c <= '9') || ('a' <= c <= 'f') || ('A' <= c <= 'F')
  }

  /** `parseInt(c, 16)` for one hex digit. */
  function HexValue(c: char): (d: nat)
    requires IsHexDigit(c)
    ensures d < 16
  {
    if '0' <= c <= '9' then c as int - '0' as int
    else if 'a' <= c <= 'f' then c as int - 'a' as int + 10
    else c as int - 'A' as int + 10
  }

  /** The lower-case digit for a value below 16. */
  function HexDigit(d: nat): (c: char)
    requires d < 16
    ensures IsHexDigit(c) && HexValue(c) == d
  {
    if d < 10 then (d + '0' as int) as char else (d - 10 + 'a' as int) as char
  }

  datatype Rgb = Rgb(r: nat, g: nat, b: nat)

  predicate IsByteRgb(c: Rgb) {
    c.r < 256 && c.g < 256 && c.b < 256
  }

  /** What the pattern `^#?([a-f\d]{2}){3}$` (case-insensitive) accepts: six hex digits,
      with or without a leading `#`, and nothing else. */
  predicate IsHexColor(s: string) {
    (|s| == 6 && forall i :: 0 <= i < 6 ==> IsHexDigit(s[i]))
    || (|s| == 7 && s[0] == '#' && forall i :: 1 <= i < 7 ==> IsHexDigit(s[i]))
  }

  /** The six digits the pattern captures, if it accepts the text. */
  function HexBody(s: string): (r: Option<string>)
    ensures r.Some? <==> IsHexColor(s)
    ensures r.Some? ==> |r.value| == 6 && forall i :: 0 <= i < 6 ==> IsHexDigit(r.value[i])
    ensures r.Some? ==> s == r.value || s == "#" + r.value
  {
    var body := if |s| == 7 && s[0] == '#' then s[1..] else s;
    if |body| == 6 && forall i :: 0 <= i < 6 ==> IsHexDigit(body[i]) then
      assert |s| == 7 ==> s == "#" + body;
      Some(body)
    else
      assert |s| == 7 && s[0] == '#' ==> forall i :: 0 <= i < 6 ==> body[i] == s[i + 1];
      None
  }

  /** Two hex digits read as one component. */
  function Pair(s: string, i: nat): (v: nat)
    requires i + 1 < |s| && IsHexDigit(s[i]) && IsHexDigit(s[i + 1])
    ensures v < 256
  {
    16 * HexValue(s[i]) + HexValue(s[i + 1])
  }

  /** `hexToRgb(hex)`: the three components, or `null` when the text is not a hex colour. */
  function HexToRgb(s: string): (r: Option<Rgb>)
    ensures r.Some? <==> IsHexColor(s)
    ensures r.Some? ==> IsByteRgb(r.value)
  {
    match HexBody(s)
    case None => None
    case Some(d) => Some(Rgb(Pair(d, 0), Pair(d, 2), Pair(d, 4)))
  }

  /** The lower-case `#rrggbb` form of a colour. */
  function FormatHex(c: Rgb): (s: string)
    requires IsByteRgb(c)
    ensures |s| == 7 && s[0] == '#'
  {
    ['#', HexDigit(c.r / 16), HexDigit(c.r % 16), HexDigit(c.g / 16), HexDigit(c.g % 16),
     HexDigit(c.b / 16), HexDigit(c.b % 16)]
  }

  /** Formatting a colour and reading it back gives the same colour. */
  lemma FormatThenParse(c: Rgb)
    requires IsByteRgb(c)
    ensures HexToRgb(FormatHex(c)) == Some(c)
  {
    var s := FormatHex(c);
    assert HexBody(s) == Some(s[1..]);
  }

  /** Reading a hex colour and formatting it back gives the same text, lower-cased and
      with its `#`. */
  lemma ParseThenFormat(s: string)
    requires HexToRgb(s).Some?
    ensures FormatHex(HexToRgb(s).value) == "#" + Lower(HexBody(s).value)
  {
    FormatDigits(HexBody(s).value);
  }

  /** Six digits read as a colour and formatted back give the digits lower-cased. */
  lemma FormatDigits(d: string)
    requires |d| == 6 && forall i :: 0 <= i < 6 ==> IsHexDigit(d[i])
    ensures FormatHex(Rgb(Pair(d, 0), Pair(d, 2), Pair(d, 4))) == "#" + Lower(d)
  {
    PairSplit(d, 0);
    PairSplit(d, 2);
    PairSplit(d, 4);
    forall i | 0 <= i < 6 ensures HexDigit(HexValue(d[i])) == LowerChar(d[i]) {
      DigitRoundTrip(d[i]);
    }
    var f := FormatHex(Rgb(Pair(d, 0), Pair(d, 2), Pair(d, 4)));
    var l := Lower(d);
    assert f[1] == l[0] && f[2] == l[1] && f[3] == l[2];
    assert f[4] == l[3] && f[5] == l[4] && f[6] == l[5];
    assert f == "#" + l;
  }

  /** A component splits back into the two digits it was read from. */
  lemma PairSplit(s: string, i: nat)
    requires i + 1 < |s| && IsHexDigit(s[i]) && IsHexDigit(s[i + 1])
    ensures Pair(s, i) / 16 == HexValue(s[i]) && Pair(s, i) % 16 == HexValue(s[i + 1])
  {
  }

  /** Reading a digit and writing it back lower-cases it. */
  lemma DigitRoundTrip(c: char)
    requires IsHexDigit(c)
    ensures HexDigit(HexValue(c)) == LowerChar(c)
  {
  }

  /** Upper- and lower-case digits denote the same colour. */
  lemma HexToRgbIgnoresCase(s: string)
    ensures HexToRgb(Lower(s)) == HexToRgb(s)
  {
    var t := Lower(s);
    assert forall i :: 0 <= i < |s| ==> (IsHexDigit(t[i]) <==> IsHexDigit(s[i]));
    if HexBody(s).Some? {
      var d := HexBody(s).value;
      var e := HexBody(t).value;
      forall i | 0 <= i < 6 ensures HexValue(e[i]) == HexValue(d[i]) {
        if |s| == 7 {
          assert e[i] == t[i + 1] && d[i] == s[i + 1];
        } else {
          assert e[i] == t[i] && d[i] == s[i];
        }
      }
    }
  }

  /** The leading `#` is optional. */
  lemma HashIsOptional(s: string)
    requires s == [] || s[0] != '#'
    ensures HexToRgb("#" + s) == HexToRgb(s)
  {
    if HexBody(s).Some? {
      assert ("#" + s)[1..] == s;
    }
    if HexBody("#" + s).Some? {
      assert ("#" + s)[1..] == s;
    }
  }

  // ---------------------------------------------------------------------------
  // The node

  /** The `rgb` field's value: `{ r, g, b }`, or `null`. */
  function RgbValue(o: Option<Rgb>): (v: Value)
    ensures Truthy(v) <==> o.Some?
  {
    match o
    case None => Null
    case Some(c) => Obj(map["r" := Num(c.r as real), "g" := Num(c.g as real), "b" := Num(c.b as real)])
  }

  lemma RgbValueInjective(a: Option<Rgb>, b: Option<Rgb>)
    ensures RgbValue(a) == RgbValue(b) ==> a == b
  {
    if RgbValue(a) == RgbValue(b) && a.Some? && b.Some? {
      assert RgbValue(a).fields["r"] == RgbValue(b).fields["r"];
      assert RgbValue(a).fields["g"] == RgbValue(b).fields["g"];
      assert RgbValue(a).fields["b"] == RgbValue(b).fields["b"];
    }
  }

  /** The stored `rgb` is what `hexToRgb` makes of the stored `hex`. */
  predicate Consistent(s: NodeFactory.State) {
    "hex" in s && s["hex"].Str? && "rgb" in s && s["rgb"] == RgbValue(HexToRgb(s["hex"].s))
  }

  /** `handleColorChange`: store the picked hex, then its components (or `null`). */
  function HandleColorChange(s: NodeFactory.State, hex: string): (r: NodeFactory.State)
    ensures Consistent(r) && r["hex"] == Str(hex)
    ensures forall k :: k in s && k != "hex" && k != "rgb" ==> k in r && r[k] == s[k]
  {
    NodeFactory.Update(NodeFactory.Update(s, "hex", Str(hex)), "rgb", RgbValue(HexToRgb(hex)))
  }

  const Defaults: NodeFactory.State :=
    map["hex" := Str("#000000"), "rgb" := RgbValue(Some(Rgb(0, 0, 0)))]

  const Config := NodeFactory.NodeConfig(
    "color", "Color Picker",
    NodeFactory.Static([]),
    NodeFactory.Static([NodeFactory.Port("hex"), NodeFactory.Port("rgb")]),
    Defaults)

  /** A fresh colour node is consistent: black is `{ r: 0, g: 0, b: 0 }`. */
  lemma DefaultsConsistent()
    ensures Consistent(NodeFactory.InitialState(Config.defaults, None))
  {
    var s := NodeFactory.InitialState(Config.defaults, None);
    assert s["hex"] == Str("#000000");
    FormatThenParse(Rgb(0, 0, 0));
    assert FormatHex(Rgb(0, 0, 0)) == "#000000";
  }

  /** After a remount, an invalid hex no longer goes with a `null` rgb: the `null` that was
      written back falls through `??` to the default black. */
  lemma RemountLosesInvalidColor(data: NodeFactory.State)
    ensures var s := HandleColorChange(Defaults, "#12");
            var remounted := NodeFactory.InitialState(Defaults, NodeFactory.WriteBack(Some(data), s));
            Consistent(s) && !Consistent(remounted)
            && remounted["hex"] == Str("#12") && remounted["rgb"] == RgbValue(Some(Rgb(0, 0, 0)))
  {
    var s := HandleColorChange(Defaults, "#12");
    assert HexToRgb("#12").None?;
    assert s["rgb"] == Null;
    NodeFactory.RemountDropsNull(Defaults, Some(data), s, "rgb");
  }

  const InvalidColorText := "Invalid color"

  /** The text shown under the swatch for a stored `rgb` of `RgbValue(o)`:
      `rgb(r, g, b)`, or `Invalid color` when it is `null`. */
  function RenderRgb(o: Option<Rgb>): (t: string)
    ensures o.None? <==> t == InvalidColorText
    ensures o.Some? ==> |t| > 4 && t[..4] == "rgb("
    ensures o.Some? ==>
              t == "rgb(" + (NatToString(o.value.r) + (", " + (NatToString(o.value.g) + (", "
                   + (NatToString(o.value.b) + ")")))))
  {
    match o
    case None => InvalidColorText
    case Some(c) =>
      var t := "rgb(" + (NatToString(c.r) + (", " + (NatToString(c.g) + (", " + (NatToString(c.b) + ")")))));
      assert t[0] == 'r' != InvalidColorText[0];
      t
  }

  /** A digit string followed by a non-digit: the digits end exactly where `x` does. */
  lemma DigitRun(x: string, u: string)
    requires IsDigitString(x) && u != [] && !('0' <= u[0] <= '9')
    ensures forall k :: 0 <= k < |x| ==> '0' <= (x + u)[k] <= '9'
    ensures !('0' <= (x + u)[|x|] <= '9')
  {
  }

  /** Two digit strings each followed by a non-digit split a text the same way. */
  lemma DigitsPrefixUnique(x: string, u: string, y: string, v: string)
    requires IsDigitString(x) && IsDigitString(y) && x + u == y + v
    requires u != [] && !('0' <= u[0] <= '9')
    requires v != [] && !('0' <= v[0] <= '9')
    ensures x == y && u == v
  {
    DigitRun(x, u);
    DigitRun(y, v);
    assert |x| == |y|;
    assert x == (x + u)[..|x|] && y == (y + v)[..|y|];
    assert u == (x + u)[|x|..] && v == (y + v)[|y|..];
  }

  /** Equal texts with a common prefix agree after it. */
  lemma StripPrefix(p: string, u: string, v: string)
    requires p + u == p + v
    ensures u == v
  {
    assert u == (p + u)[|p|..] && v == (p + v)[|p|..];
  }

  /** The rendered text determines the colour: the three numbers can be read back from
      `rgb(r, g, b)`, and `Invalid color` stands for no colour only. */
  lemma RenderRgbInjective(a: Option<Rgb>, b: Option<Rgb>)
    ensures RenderRgb(a) == RenderRgb(b) ==> a == b
  {
    if RenderRgb(a) == RenderRgb(b) && a.Some? && b.Some? {
      var c, d := a.value, b.value;
      var x1, x2, x3 := NatToString(c.r), NatToString(c.g), NatToString(c.b);
      var y1, y2, y3 := NatToString(d.r), NatToString(d.g), NatToString(d.b);
      var u3, v3 := x3 + ")", y3 + ")";
      var u2, v2 := x2 + (", " + u3), y2 + (", " + v3);
      var u1, v1 := x1 + (", " + u2), y1 + (", " + v2);
      StripPrefix("rgb(", u1, v1);
      DigitsPrefixUnique(x1, ", " + u2, y1, ", " + v2);
      StripPrefix(", ", u2, v2);
      DigitsPrefixUnique(x2, ", " + u3, y2, ", " + v3);
      StripPrefix(", ", u3, v3);
      DigitsPrefixUnique(x3, ")", y3, ")");
      NatToStringInjective(c.r, d.r);
      NatToStringInjective(c.g, d.g);
      NatToStringInjective(c.b, d.b);
    }
  }
}
