/**
 * The status LED strip: its colour, read once from the "led_color"
 * setting, and the frame the animation task draws on each tick.
 */
module LedAnimation {
  import opened LibC
  import opened Nvs
  import ConfigPortal

  /** Used when no colour is stored. */
  const DEFAULT_COLOR: string := "#800000"
  /** `color_str[8]`: "#RRGGBB" and its NUL. */
  const COLOR_BUF: nat := 8
  const COLOR_KEY: string := "led_color"

  datatype Animation = Off | Solid | Blink

  datatype Rgb = Rgb(r: byte, g: byte, b: byte)

  const BLACK: Rgb := Rgb(0, 0, 0)
  /** What a malformed colour string gives. */
  const FALLBACK: Rgb := Rgb(100, 0, 0)

  // =====================================================================
  // Colours

  /** One channel: the two characters converted by `strtol` in base 16, then cut to `uint8_t`. */
  function Channel(hi: char, lo: char): (v: byte)
    ensures IsXDigit(hi) && IsXDigit(lo) ==> v as int == 16 * HexValue(hi) + HexValue(lo)
  {
    var v := ToByte(StrtolHex([hi, lo]));
    if IsXDigit(hi) && IsXDigit(lo) then (StrtolTwoDigits(hi, lo); v) else v
  }

  /**
   * `parse_hex_color`: a string of exactly seven characters starting with
   * '#' gives one channel per pair of characters; anything else gives the
   * fallback colour.
   */
  function ParseHexColor(color: string): (rgb: Rgb)
    ensures !(|color| == 7 && color[0] == '#') ==> rgb == FALLBACK
    ensures |color| == 7 && color[0] == '#' ==>
      rgb.r == Channel(color[1], color[2]) && rgb.g == Channel(color[3], color[4]) && rgb.b == Channel(color[5], color[6])
  {
    if |color| >= 1 && color[0] == '#' && |color| == 7 then
      Rgb(Channel(color[1], color[2]), Channel(color[3], color[4]), Channel(color[5], color[6]))
    else FALLBACK
  }

  /** The two upper-case hexadecimal digits of a byte. */
  function ByteHex(v: byte): (s: string)
    ensures |s| == 2 && IsXDigit(s[0]) && IsXDigit(s[1])
    ensures 16 * HexValue(s[0]) + HexValue(s[1]) == v as int
  {
    [HexDigit(v as int / 16), HexDigit(v as int % 16)]
  }

  /** The "#RRGGBB" form of a colour, as the settings page writes it. */
  function FormatHexColor(c: Rgb): (s: string)
    ensures |s| == 7 && s[0] == '#'
  {
    var r, g, b := ByteHex(c.r), ByteHex(c.g), ByteHex(c.b);
    ['#', r[0], r[1], g[0], g[1], b[0], b[1]]
  }

  /** "#RRGGBB" with hexadecimal digits in either case gives the bytes RR, GG and BB. */
  lemma ParseHexDigits(color: string)
    requires |color| == 7 && color[0] == '#'
    requires forall i :: 1 <= i < 7 ==> IsXDigit(color[i])
    ensures ParseHexColor(color).r as int == 16 * HexValue(color[1]) + HexValue(color[2])
    ensures ParseHexColor(color).g as int == 16 * HexValue(color[3]) + HexValue(color[4])
    ensures ParseHexColor(color).b as int == 16 * HexValue(color[5]) + HexValue(color[6])
  {
  }

  /** Formatting a colour and parsing it back gives the colour. */
  lemma ParseFormat(c: Rgb)
    ensures ParseHexColor(FormatHexColor(c)) == c
  {
    ChannelOfByteHex(c.r);
    ChannelOfByteHex(c.g);
    ChannelOfByteHex(c.b);
  }

  lemma ChannelOfByteHex(v: byte)
    ensures Channel(ByteHex(v)[0], ByteHex(v)[1]) == v
  {
  }

  /** A sign in the first character is read by `strtol`, and the negative result wraps modulo 256. */
  lemma NegativeChannelWraps(d: char)
    requires IsXDigit(d) && HexValue(d) > 0
    ensures Channel('-', d) as int == 256 - HexValue(d)
  {
    var s := ['-', d];
    assert s[1..] == [d] && [d][1..] == [];
    assert SpanSpace(s) == 0 && s[0..] == s;
    assert HexSpan([d]) == 1 && [d][..1] == [d] && [d][..0] == [];
    assert HexNumber([d]) == HexValue(d);
    assert s[0..][1..] == [d];
    assert StrtolHex(s) == -(HexValue(d) as int);
  }

  /** The default colour is red at half brightness. */
  lemma DefaultColorIsDarkRed()
    ensures ParseHexColor(DEFAULT_COLOR) == Rgb(128, 0, 0)
  {
    ParseHexDigits(DEFAULT_COLOR);
  }

  // =====================================================================
  // The colour chosen at start-up

  /** `led_animation_init`'s colour: the stored "led_color" if it loads into 8 bytes, else the default. */
  function InitColor(spaces: Namespaces): Rgb {
    ParseHexColor(ConfigPortal.Setting(spaces, COLOR_KEY, COLOR_BUF, DEFAULT_COLOR))
  }

  /** Without a stored colour that fits the buffer the strip starts dark red. */
  lemma InitColorDefault(spaces: Namespaces)
    requires Read(spaces, ConfigPortal.NAMESPACE, COLOR_KEY, COLOR_BUF).Err?
    ensures InitColor(spaces) == Rgb(128, 0, 0)
  {
    DefaultColorIsDarkRed();
  }

  /** A colour stored in "#RRGGBB" form is the colour the strip starts with. */
  lemma InitColorStored(spaces: Namespaces, c: Rgb)
    requires Read(spaces, ConfigPortal.NAMESPACE, COLOR_KEY, COLOR_BUF) == Ok(FormatHexColor(c))
    ensures InitColor(spaces) == c
  {
    ParseFormat(c);
  }

  // =====================================================================
  // Frames

  /** `blink` after a tick: only BLINK toggles it. */
  function NextBlink(anim: Animation, blink: bool): bool {
    if anim == Blink then !blink else blink
  }

  /** The colour every pixel shows after a tick, given `blink` after the toggle. */
  function PixelColor(anim: Animation, color: Rgb, blink: bool): Rgb {
    match anim
    case Off => BLACK
    case Solid => color
    case Blink => if blink then color else BLACK
  }

  /** A strip of `n` pixels all showing `c`. */
  function Fill(c: Rgb, n: nat): (f: seq<Rgb>)
    ensures |f| == n && forall i :: 0 <= i < n ==> f[i] == c
  {
    seq(n, _ => c)
  }

  /** The state of the strip and of `blink` after one tick that starts from `blink`. */
  function Tick(anim: Animation, color: Rgb, blink: bool, n: nat): (bool, seq<Rgb>) {
    var b := NextBlink(anim, blink);
    (b, Fill(PixelColor(anim, color, b), n))
  }

  /** Two BLINK ticks in a row show the colour once and black once, and `blink` is back where it was. */
  lemma {:induction false} BlinkAlternates(color: Rgb, blink: bool, n: nat)
    requires n > 0 && color != BLACK
    ensures var (b1, f1) := Tick(Blink, color, blink, n);
      var (b2, f2) := Tick(Blink, color, b1, n);
      b2 == blink && f1 != f2 && {f1, f2} == {Fill(color, n), Fill(BLACK, n)}
  {
    var (b1, f1) := Tick(Blink, color, blink, n);
    var (b2, f2) := Tick(Blink, color, b1, n);
    assert f1[0] != f2[0];
  }

  /** The first BLINK tick after the task starts lights the strip. */
  lemma FirstBlinkLights(color: Rgb, n: nat)
    ensures Tick(Blink, color, false, n) == (true, Fill(color, n))
  {
  }

  /** SOLID and OFF do not touch `blink` and draw the colour and black. */
  lemma SteadyFrames(color: Rgb, blink: bool, n: nat)
    ensures Tick(Solid, color, blink, n) == (blink, Fill(color, n))
    ensures Tick(Off, color, blink, n) == (blink, Fill(BLACK, n))
  {
  }

  // ---------------------------------------------------------------------
  // The module's statics and the animation task

  class LedAnimator {
    /** `strip_handle`'s pixel buffer, CONFIG_LED_STRIP_LED_COUNT long; null before init. */
    var strip: array?<Rgb>
    var current: Animation
    var color: Rgb
    /** `led_task`'s local toggle. */
    var blink: bool

    /** The statics before `led_animation_init`. */
    constructor ()
      ensures strip == null && current == Off && color == BLACK && !blink
    {
      strip, current, color, blink := null, Off, BLACK, false;
    }

    /** `led_animation_init`: keep the strip, load the colour, start the task with `blink` clear. */
    method Init(pixels: array<Rgb>, store: Store)
      modifies this`strip, this`color, this`blink
      ensures strip == pixels && color == InitColor(store.spaces) && !blink
    {
      strip := pixels;
      var loaded := ConfigPortal.LoadSetting(store, COLOR_KEY, COLOR_BUF);
      var text := if loaded.Ok? then loaded.value else DEFAULT_COLOR;
      color := ParseHexColor(text);
      blink := false;
    }

    /** `led_animation_set`: only the animation changes. */
    method Set(anim: Animation)
      modifies this`current
      ensures current == anim
    {
      current := anim;
    }

    /** One pass of `led_task`'s loop body. */
    method Step()
      requires strip != null
      modifies strip, this`blink
      ensures blink == NextBlink(current, old(blink))
      ensures strip[..] == Fill(PixelColor(current, color, blink), strip.Length)
    {
      match current {
        case Off =>
          forall i | 0 <= i < strip.Length {
            strip[i] := BLACK;
          }
        case Solid =>
          for i := 0 to strip.Length
            invariant forall j :: 0 <= j < i ==> strip[j] == color
            invariant blink == old(blink)
          {
            strip[i] := color;
          }
          assert strip[..] == Fill(color, strip.Length);
        case Blink =>
          blink := !blink;
          for i := 0 to strip.Length
            invariant forall j :: 0 <= j < i ==> strip[j] == (if blink then color else BLACK)
            invariant blink == !old(blink)
          {
            strip[i] := if blink then color else BLACK;
          }
          assert strip[..] == Fill(if blink then color else BLACK, strip.Length);
      }
    }
  }
}
