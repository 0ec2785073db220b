/** ui/manage_ui.py: the colour arithmetic of a ModuleButton, the grid
 *  placement of the module buttons, and the map from module name to the
 *  window opened for it. */
module Manage {
  import opened Common

  // ---------------------------------------------------------------------
  // adjust_color
  // ---------------------------------------------------------------------

  /** str.lstrip('#'). */
  function StripHashes(s: string): (r: string)
    ensures |r| <= |s|
    ensures r == [] || r[0] != '#'
  {
    if s != [] && s[0] == '#' then StripHashes(s[1..]) else s
  }

  /** What lstrip('#') drops is exactly the run of leading '#'s. */
  lemma {:induction false} StripHashesDropsHashes(s: string)
    ensures StripHashes(s) == s[|s| - |StripHashes(s)|..]
    ensures forall i :: 0 <= i < |s| - |StripHashes(s)| ==> s[i] == '#'
  {
    if s != [] && s[0] == '#' {
      StripHashesDropsHashes(s[1..]);
    }
  }

  predicate IsHexDigit(c: char)
  {
    ('0' <= c <= '9') || ('a' <= c <= 'f') || ('A' <= c <= 'F')
  }

  predicate IsLowerHexDigit(c: char)
  {
    ('0' <= c <= '9') || ('a' <= c <= 'f')
  }

  function HexValue(c: char): (v: nat)
    requires IsHexDigit(c)
    ensures v < 16
  {
    if '0' <= c <= '9' then c as int - '0' as int
    else if 'a' <= c <= 'f' then c as int - 'a' as int + 10
    else c as int - 'A' as int + 10
  }

  /** The lowercase digit `format(v, 'x')` writes for v < 16. */
  function HexDigit(v: nat): (c: char)
    requires v < 16
    ensures IsLowerHexDigit(c) && HexValue(c) == v
  {
    if v < 10 then ('0' as int + v) as char else ('a' as int + v - 10) as char
  }

  lemma HexDigitOfValue(c: char)
    requires IsLowerHexDigit(c)
    ensures HexDigit(HexValue(c)) == c
  {
  }

  /** Python's int(t, 16) on text already stripped of whitespace, when
   *  it has at most two characters: one or two hex digits, or a sign and
   *  one digit. Anything else raises ValueError (None). */
  function ParseStripped(t: string): (r: Option<int>)
    ensures r.Some? ==> -15 <= r.value <= 255
  {
    if |t| == 1 && IsHexDigit(t[0]) then Some(HexValue(t[0]))
    else if |t| == 2 && IsHexDigit(t[0]) && IsHexDigit(t[1]) then
      Some(16 * HexValue(t[0]) + HexValue(t[1]))
    else if |t| == 2 && t[0] == '+' && IsHexDigit(t[1]) then Some(HexValue(t[1]))
    else if |t| == 2 && t[0] == '-' && IsHexDigit(t[1]) then Some(-(HexValue(t[1]) as int))
    else None
  }

  /** int(g, 16) on a two-character group of the colour, case by case:
   *  two hex digits, one digit beside a whitespace character, or a sign
   *  and a digit. ParseGroupStrips shows this is stripping followed by
   *  ParseStripped. */
  function ParseGroup(g: string): (r: Option<int>)
    requires |g| == 2
    ensures r.Some? ==> -15 <= r.value <= 255
    ensures r.Some? && r.value < 0 ==> g[0] == '-'
    ensures r.Some? && r.value > 15 ==> IsHexDigit(g[0]) && IsHexDigit(g[1])
  {
    var a, b := g[0], g[1];
    if IsHexDigit(a) && IsHexDigit(b) then Some(16 * HexValue(a) + HexValue(b))
    else if a == '+' && IsHexDigit(b) then Some(HexValue(b))
    else if a == '-' && IsHexDigit(b) then Some(-(HexValue(b) as int))
    else if IsSpace(a) && IsHexDigit(b) then Some(HexValue(b))
    else if IsHexDigit(a) && IsSpace(b) then Some(HexValue(a))
    else None
  }

  /** ParseGroup is int(g, 16): strip, then parse what remains. */
  lemma ParseGroupStrips(g: string)
    requires |g| == 2
    ensures ParseGroup(g) == ParseStripped(Strip(g))
  {
    var a, b := g[0], g[1];
    var l := StripLeft(g);
    if IsSpace(a) {
      assert l == StripLeft(g[1..]);
      if IsSpace(b) {
        assert StripLeft(g[1..]) == StripLeft(g[1..][1..]);
        assert g[1..][1..] == [];
      } else {
        assert l == [b];
      }
    } else {
      assert l == g;
      if IsSpace(b) {
        assert StripRight(g) == StripRight(g[..1]);
        assert StripRight(g[..1]) == [a];
      } else {
        assert StripRight(g) == g;
      }
    }
  }

  /** max(0, min(255, v)). */
  function Clamp(v: int): (r: int)
    ensures 0 <= r <= 255
    ensures 0 <= v <= 255 ==> r == v
  {
    if v < 0 then 0 else if v > 255 then 255 else v
  }

  /** f"{v:02x}" for a channel. */
  function Hex2(v: int): (r: string)
    requires 0 <= v <= 255
    ensures |r| == 2 && IsLowerHexDigit(r[0]) && IsLowerHexDigit(r[1])
  {
    [HexDigit(v / 16), HexDigit(v % 16)]
  }

  /** "#rrggbb" with six lowercase hex digits. */
  predicate IsColorCode(s: string)
  {
    |s| == 7 && s[0] == '#' && forall i :: 1 <= i < 7 ==> IsLowerHexDigit(s[i])
  }

  /** f"#{r:02x}{g:02x}{b:02x}". */
  function FormatColor(r: int, g: int, b: int): (s: string)
    requires 0 <= r <= 255 && 0 <= g <= 255 && 0 <= b <= 255
    ensures IsColorCode(s)
    ensures s[1..3] == Hex2(r) && s[3..5] == Hex2(g) && s[5..7] == Hex2(b)
  {
    "#" + Hex2(r) + Hex2(g) + Hex2(b)
  }

  /** The three channels of a stripped six-character colour, if all three
   *  groups parse. */
  function Channels(c: string): Option<(int, int, int)>
    requires |c| == 6
  {
    var r, g, b := ParseGroup(c[0..2]), ParseGroup(c[2..4]), ParseGroup(c[4..6]);
    if r.Some? && g.Some? && b.Some? then Some((r.value, g.value, b.value)) else None
  }

  /** adjust_color: strip the leading '#'s; a colour of six characters
   *  whose three groups parse is shifted by `amount` per channel and
   *  written back; anything else is returned stripped. */
  function AdjustColor(color: string, amount: int): (r: string)
    ensures r == StripHashes(color) || IsColorCode(r)
    ensures |StripHashes(color)| != 6 ==> r == StripHashes(color)
  {
    var c := StripHashes(color);
    if |c| != 6 then c
    else match Channels(c)
      case None => c
      case Some(ch) => FormatColor(Clamp(ch.0 + amount), Clamp(ch.1 + amount), Clamp(ch.2 + amount))
  }

  /** The answer is either the stripped input or a colour code, and it is
   *  a colour code exactly when the stripped input has six characters in
   *  three parsable groups. */
  lemma AdjustColorShape(color: string, amount: int)
    ensures var r := AdjustColor(color, amount);
            && (r == StripHashes(color) || IsColorCode(r))
            && (IsColorCode(r) <==> |StripHashes(color)| == 6 && Channels(StripHashes(color)).Some?)
  {
    var c := StripHashes(color);
    if |c| == 7 {
      assert c[0] != '#';
    }
  }

  /** Writing a channel with two hex digits and parsing it back gives the
   *  channel. */
  lemma Hex2RoundTrip(v: int)
    requires 0 <= v <= 255
    ensures ParseGroup(Hex2(v)) == Some(v)
  {
    var h := Hex2(v);
    assert HexValue(h[0]) == v / 16 && HexValue(h[1]) == v % 16;
  }

  /** The channels of an adjusted colour, read back from its text. */
  function CodeChannels(s: string): Option<(int, int, int)>
    requires IsColorCode(s)
  {
    Channels(s[1..])
  }

  /** Per channel, `x` is at most `y`, and both are present. */
  predicate ChannelsAtMost(x: Option<(int, int, int)>, y: Option<(int, int, int)>)
  {
    x.Some? && y.Some? && x.value.0 <= y.value.0 && x.value.1 <= y.value.1 && x.value.2 <= y.value.2
  }

  /** Formatting three channels and reading the text back gives them. */
  lemma FormatRoundTrip(r: int, g: int, b: int)
    requires 0 <= r <= 255 && 0 <= g <= 255 && 0 <= b <= 255
    ensures CodeChannels(FormatColor(r, g, b)) == Some((r, g, b))
  {
    var out := FormatColor(r, g, b);
    var c := out[1..];
    assert c[0..2] == out[1..3] && c[2..4] == out[3..5] && c[4..6] == out[5..7];
    Hex2RoundTrip(r);
    Hex2RoundTrip(g);
    Hex2RoundTrip(b);
  }

  /** A valid colour comes out with each channel shifted by `amount` and
   *  clamped to [0, 255]. */
  lemma AdjustedChannels(color: string, amount: int)
    requires |StripHashes(color)| == 6 && Channels(StripHashes(color)).Some?
    ensures var ch := Channels(StripHashes(color)).value;
            CodeChannels(AdjustColor(color, amount))
              == Some((Clamp(ch.0 + amount), Clamp(ch.1 + amount), Clamp(ch.2 + amount)))
  {
    var ch := Channels(StripHashes(color)).value;
    var r, g, b := Clamp(ch.0 + amount), Clamp(ch.1 + amount), Clamp(ch.2 + amount);
    AdjustColorFormats(color, amount);
    FormatRoundTrip(r, g, b);
  }

  lemma AdjustColorFormats(color: string, amount: int)
    requires |StripHashes(color)| == 6 && Channels(StripHashes(color)).Some?
    ensures var ch := Channels(StripHashes(color)).value;
            AdjustColor(color, amount)
              == FormatColor(Clamp(ch.0 + amount), Clamp(ch.1 + amount), Clamp(ch.2 + amount))
  {
  }

  /** A larger amount never makes a channel darker. */
  lemma AdjustColorMonotone(color: string, a1: int, a2: int)
    requires a1 <= a2
    requires |StripHashes(color)| == 6 && Channels(StripHashes(color)).Some?
    ensures ChannelsAtMost(CodeChannels(AdjustColor(color, a1)), CodeChannels(AdjustColor(color, a2)))
  {
    var ch := Channels(StripHashes(color)).value;
    AdjustedChannels(color, a1);
    AdjustedChannels(color, a2);
    assert Clamp(ch.0 + a1) <= Clamp(ch.0 + a2);
    assert Clamp(ch.1 + a1) <= Clamp(ch.1 + a2);
    assert Clamp(ch.2 + a1) <= Clamp(ch.2 + a2);
  }

  /** A pair of lowercase hex digits reads as a channel that is written
   *  back as the same pair. */
  lemma HexPairRoundTrip(p: string)
    requires |p| == 2 && IsLowerHexDigit(p[0]) && IsLowerHexDigit(p[1])
    ensures ParseGroup(p) == Some(16 * HexValue(p[0]) + HexValue(p[1]))
    ensures Hex2(16 * HexValue(p[0]) + HexValue(p[1])) == p
  {
    HexDigitOfValue(p[0]);
    HexDigitOfValue(p[1]);
  }

  /** Six lowercase hex digits read as three channels that are written
   *  back as the same digits. */
  lemma LowerHexChannels(c: string)
    requires |c| == 6 && forall i :: 0 <= i < 6 ==> IsLowerHexDigit(c[i])
    ensures Channels(c).Some?
    ensures var ch := Channels(c).value;
            0 <= ch.0 <= 255 && 0 <= ch.1 <= 255 && 0 <= ch.2 <= 255
            && FormatColor(ch.0, ch.1, ch.2) == "#" + c
  {
    var p1, p2, p3 := c[0..2], c[2..4], c[4..6];
    assert p1[0] == c[0] && p1[1] == c[1];
    assert p2[0] == c[2] && p2[1] == c[3];
    assert p3[0] == c[4] && p3[1] == c[5];
    HexPairRoundTrip(p1);
    HexPairRoundTrip(p2);
    HexPairRoundTrip(p3);
    assert c == p1 + p2 + p3;
  }

  /** Adjusting a lowercase "#rrggbb" by 0 gives it back. */
  lemma AdjustByZero(color: string)
    requires IsColorCode(color)
    ensures AdjustColor(color, 0) == color
  {
    var c := color[1..];
    assert StripHashes(color) == c by {
      assert StripHashes(color) == StripHashes(c);
    }
    LowerHexChannels(c);
    AdjustColorFormats(color, 0);
    assert color == "#" + c;
  }

  /** int() ignores whitespace beside a digit and accepts a sign: " f"
   *  reads as 15 and "-f" as -15. */
  lemma LenientGroups()
    ensures ParseGroup(" f") == Some(15)
    ensures ParseGroup("-f") == Some(-15)
  {
    assert IsSpace(" f"[0]) && " f"[1] == 'f';
    assert "-f"[0] == '-' && "-f"[1] == 'f';
  }

  /** So "#-f0000" is adjusted as the channels -15, 0 and 0: by 20 it
   *  becomes the channels 5, 20 and 20. */
  lemma NegativeChannelColor()
    ensures CodeChannels(AdjustColor("#-f0000", 20)) == Some((5, 20, 20))
  {
    var color := "#-f0000";
    var c := color[1..];
    assert StripHashes(color) == c by {
      assert color[0] == '#' && c[0] == '-';
    }
    var g1, g2, g3 := c[0..2], c[2..4], c[4..6];
    assert g1[0] == '-' && g1[1] == 'f';
    assert g2[0] == '0' && g2[1] == '0';
    assert g3[0] == '0' && g3[1] == '0';
    HexPairRoundTrip(g2);
    HexPairRoundTrip(g3);
    AdjustedChannels(color, 20);
  }

  // ---------------------------------------------------------------------
  // Grid placement of the module buttons
  // ---------------------------------------------------------------------

  const Columns: nat := 3

  /** Button i goes to row i // 3, column i % 3. */
  function GridPosition(i: nat): (p: (nat, nat))
    ensures p.1 < Columns && i == Columns * p.0 + p.1
  {
    (i / Columns, i % Columns)
  }

  /** No two buttons share a cell. */
  lemma GridPositionInjective(i: nat, j: nat)
    requires GridPosition(i) == GridPosition(j)
    ensures i == j
  {
  }

  // ---------------------------------------------------------------------
  // onModuleSelected
  // ---------------------------------------------------------------------

  const StudentModule: string := "Qu\U{1EA3}n l\U{00FD} Sinh vi\U{00EA}n"

  /** Which window createModuleWindow builds. */
  datatype WindowKind = StudentManagementWindow | PlaceholderWindow(moduleName: string)

  /** createModuleWindow: the student module gets its own window when its
   *  class was imported and its constructor does not raise; everything
   *  else, including those failures, gets a placeholder. */
  function WindowKindFor(moduleName: string, studentUiImported: bool, constructs: bool): (k: WindowKind)
    ensures k == StudentManagementWindow <==> moduleName == StudentModule && studentUiImported && constructs
    ensures k.PlaceholderWindow? ==> k.moduleName == moduleName
  {
    if moduleName == StudentModule && studentUiImported && constructs then StudentManagementWindow
    else PlaceholderWindow(moduleName)
  }

  class Window {
    const kind: WindowKind
    var visible: bool

    constructor (k: WindowKind)
      ensures kind == k && !visible
    {
      kind := k;
      visible := false;
    }

    method Show()
      modifies this`visible
      ensures visible
    {
      visible := true;
    }
  }

  class AttendanceManagerUI {
    var moduleWindows: map<string, Window>

    constructor ()
      ensures moduleWindows == map[]
    {
      moduleWindows := map[];
    }

    /** onModuleSelected: a visible window for the module is only raised;
     *  a hidden one is dropped and, like a missing one, replaced by a new
     *  visible window. */
    method OnModuleSelected(moduleName: string, studentUiImported: bool, constructs: bool)
      returns (window: Window)
      modifies this`moduleWindows
      ensures moduleName in old(moduleWindows) && old(moduleWindows[moduleName].visible) ==>
                moduleWindows == old(moduleWindows) && window == old(moduleWindows[moduleName])
      ensures !(moduleName in old(moduleWindows) && old(moduleWindows[moduleName].visible)) ==>
                && fresh(window) && window.visible
                && window.kind == WindowKindFor(moduleName, studentUiImported, constructs)
                && moduleWindows == old(moduleWindows)[moduleName := window]
    {
      if moduleName in moduleWindows {
        var existing := moduleWindows[moduleName];
        if !existing.visible {
          moduleWindows := moduleWindows - {moduleName};
        } else {
          return existing;
        }
      }
      window := new Window(WindowKindFor(moduleName, studentUiImported, constructs));
      moduleWindows := moduleWindows[moduleName := window];
      window.Show();
    }
  }
}
