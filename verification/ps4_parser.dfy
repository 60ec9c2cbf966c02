/** The PS4 controller report parser: the hat-switch (dpad) decoding, the
    button and trigger queries, the rising-edge "click" latch and the report-ID
    gate of `Parse`, and `Reset`.

    The byte layout of the input report (`ps4Data`), the button table
    (`PS4_BUTTONS`, `ButtonIndex`) and `sendOutputReport` live in a header
    that is not part of this model. The report is kept abstract: the copy of
    the raw report octets into it is a parameter, and the 32-bit button word
    is split into its low nibble (the hat switch, or the four direction bits
    of the click word) and the set of the higher bits that are set. */
module Ps4Parser {
  import opened Bytes
  import opened Wrappers

  /** The low four bits of the button word. */
  type Nibble = bv4

  /** Hat-switch values: the eight compass points clockwise from up, then
      released. */
  const DPAD_UP: Nibble := 0
  const DPAD_UP_RIGHT: Nibble := 1
  const DPAD_RIGHT: Nibble := 2
  const DPAD_RIGHT_DOWN: Nibble := 3
  const DPAD_DOWN: Nibble := 4
  const DPAD_DOWN_LEFT: Nibble := 5
  const DPAD_LEFT: Nibble := 6
  const DPAD_LEFT_UP: Nibble := 7
  const DPAD_OFF: Nibble := 8

  /** A bit of the button word above the hat nibble. */
  type HighBit = k: nat | 4 <= k < 32 witness 4

  /** The button word: the hat nibble and the set bits above it. Two words
      are equal exactly when both parts are. */
  datatype Buttons = Buttons(dpad: Nibble, bits: set<HighBit>)

  /** Positions of the two analog triggers' digital bits in the button word. */
  const L2_BIT: HighBit := 10
  const R2_BIT: HighBit := 11

  datatype Direction = Up | Right | Down | Left

  /** A button as the parser looks it up: a dpad direction, one of the two
      analog triggers, another digital button with its bit, or a button the
      PS4 table does not hold (`getButtonIndexPS4` gives -1). */
  datatype Button = Dpad(dir: Direction) | L2 | R2 | Digital(bit: HighBit) | Unmapped

  /** The direction buttons come first in the button enumeration, so their
      index is also their bit in the click word's direction nibble. */
  function DirIndex(d: Direction): (k: nat)
    ensures k < 4
  {
    match d
    case Up => 0
    case Right => 1
    case Down => 2
    case Left => 3
  }

  /** `1 << d` as a nibble. */
  function DirMask(d: Direction): (m: Nibble)
    ensures m != 0 && m & (m - 1) == 0
  {
    match d
    case Up => 1
    case Right => 2
    case Down => 4
    case Left => 8
  }

  /** Where a button's state sits in the button word (`PS4_BUTTONS[index]`),
      or -1 for a button the table does not hold. */
  function Position(b: Button): (p: int)
    ensures -1 <= p < 32
    ensures b.Unmapped? <==> p == -1
    ensures b.Dpad? ==> p == DirIndex(b.dir)
    ensures !b.Dpad? && !b.Unmapped? ==> p >= 4
  {
    match b
    case Dpad(d) => DirIndex(d)
    case L2 => L2_BIT
    case R2 => R2_BIT
    case Digital(k) => k
    case Unmapped => -1
  }

  /** `checkDpad`: a direction reads as pressed when the hat points at it or
      at one of the two diagonals next to it; any other button reads as not
      pressed. */
  function CheckDpad(dpad: Nibble, b: Button): bool {
    match b
    case Dpad(Up) => dpad == DPAD_LEFT_UP || dpad == DPAD_UP || dpad == DPAD_UP_RIGHT
    case Dpad(Right) => dpad == DPAD_UP_RIGHT || dpad == DPAD_RIGHT || dpad == DPAD_RIGHT_DOWN
    case Dpad(Down) => dpad == DPAD_RIGHT_DOWN || dpad == DPAD_DOWN || dpad == DPAD_DOWN_LEFT
    case Dpad(Left) => dpad == DPAD_DOWN_LEFT || dpad == DPAD_LEFT || dpad == DPAD_LEFT_UP
    case _ => false
  }

  /** Reference reading of the hat switch as a compass: value v below 8 points
      at 45 * v degrees clockwise from up; direction d sits at 90 * d degrees
      and is pressed when the hat is within 45 degrees of it. */
  predicate Toward(v: int, d: Direction) {
    0 <= v < 8 && (v - 2 * DirIndex(d)) % 8 in {0, 1, 7}
  }

  /** `checkDpad` is the compass reading: UP for 7, 0 and 1, RIGHT for 1, 2
      and 3, DOWN for 3, 4 and 5, LEFT for 5, 6 and 7, no direction for a
      released hat (8) or any other value, and never for a non-direction
      button. */
  lemma {:induction false} CheckDpadIsCompass(v: Nibble, b: Button)
    ensures b.Dpad? ==> (CheckDpad(v, b) <==> Toward(v as int, b.dir))
    ensures !b.Dpad? ==> !CheckDpad(v, b)
    ensures v >= DPAD_OFF ==> !CheckDpad(v, b)
  {
    if b.Dpad? {
      var n := v as int;
      assert 0 <= n < 16;
      if n >= 8 {
        assert v >= 8;
      } else {
        assert n == 0 || n == 1 || n == 2 || n == 3 || n == 4 || n == 5 || n == 6 || n == 7;
        if n == 0 { assert v == 0; } else if n == 1 { assert v == 1; }
        else if n == 2 { assert v == 2; } else if n == 3 { assert v == 3; }
        else if n == 4 { assert v == 4; } else if n == 5 { assert v == 5; }
        else if n == 6 { assert v == 6; } else { assert v == 7; }
      }
    }
  }

  /** The four direction bits `Parse` derives from a hat value with
      `checkDpad`. */
  function DpadBits(v: Nibble): (r: Nibble)
    ensures forall d: Direction :: (r & DirMask(d) != 0) == CheckDpad(v, Dpad(d))
  {
    (if CheckDpad(v, Dpad(Up)) then DirMask(Up) else 0)
    | (if CheckDpad(v, Dpad(Right)) then DirMask(Right) else 0)
    | (if CheckDpad(v, Dpad(Down)) then DirMask(Down) else 0)
    | (if CheckDpad(v, Dpad(Left)) then DirMask(Left) else 0)
  }

  /** Distinct hat values 0 to 8 press distinct sets of directions, so a change
      of a well-formed hat value always changes the direction bits. */
  lemma DpadBitsInjective(a: Nibble, b: Nibble)
    requires a <= DPAD_OFF && b <= DPAD_OFF && a != b
    ensures DpadBits(a) != DpadBits(b)
  {
  }

  /** The two analog trigger values. */
  type Pair = s: seq<byte> | |s| == 2 witness [0, 0]

  /** The input report fields the parser reads or resets: the analog stick
      values, the button word, the trigger values and the touch-pad finger
      bits (set while no finger touches). */
  datatype Report = Report(hats: seq<byte>, buttons: Buttons, triggers: Pair, notTouching: seq<bool>)

  /** The output report: rumble, light-bar colour and flash timing, and whether
      it has to be sent. */
  datatype Output = Output(bigRumble: byte, smallRumble: byte, r: byte, g: byte, b: byte,
                           flashOn: byte, flashOff: byte, reportChanged: bool)

  /** The parser: the last input report, the button word at the last change,
      the latched clicks (the direction nibble holds direction bits here, not
      a hat value), the direction bits at the last change, and the output
      report. */
  datatype Ps4 = Ps4(data: Report, oldButtons: Buttons, click: Buttons, oldDpad: Nibble, output: Output)

  /** The button word reads the button as pressed. */
  predicate Pressed(w: Buttons, b: Button) {
    match b
    case Dpad(_) => CheckDpad(w.dpad, b)
    case Unmapped => false
    case _ => Position(b) in w.bits
  }

  /** The click word holds a click for the button. */
  predicate Clicked(c: Buttons, b: Button) {
    match b
    case Dpad(d) => c.dpad & DirMask(d) != 0
    case Unmapped => false
    case _ => Position(b) in c.bits
  }

  /** `getButtonPress`: false for a button the table does not hold, the hat
      reading for a direction, the button's bit otherwise. */
  function GetButtonPress(s: Ps4, b: Button): (r: bool)
    ensures b.Unmapped? ==> !r
    ensures b.Dpad? ==> r == CheckDpad(s.data.buttons.dpad, b)
    ensures !b.Dpad? && !b.Unmapped? ==> (r <==> Position(b) in s.data.buttons.bits)
  {
    Pressed(s.data.buttons, b)
  }

  /** The click word without the button's bit (`val &= ~mask`). */
  function Unclick(c: Buttons, b: Button): Buttons {
    match b
    case Dpad(d) => c.(dpad := c.dpad & !DirMask(d))
    case Unmapped => c
    case _ => c.(bits := c.bits - {Position(b)})
  }

  /** `getButtonClick`: whether a click is latched for the button; the latch
      for that button is consumed and nothing else changes. */
  function GetButtonClick(s: Ps4, b: Button): (r: (Ps4, bool))
    ensures r.1 == Clicked(s.click, b)
    ensures !Clicked(r.0.click, b)
    ensures r.0 == s.(click := r.0.click)
  {
    (s.(click := Unclick(s.click, b)), Clicked(s.click, b))
  }

  /** Consuming one button's click leaves the click of every button at another
      position as it was. */
  lemma {:induction false} ClickIsLocal(s: Ps4, b: Button, c: Button)
    requires Position(b) != Position(c)
    ensures Clicked(GetButtonClick(s, b).0.click, c) == Clicked(s.click, c)
  {
    var u := GetButtonClick(s, b).0.click;
    if b.Dpad? && c.Dpad? {
      assert DirMask(b.dir) & DirMask(c.dir) == 0 by {
        assert b.dir != c.dir;
      }
      assert u.dpad == s.click.dpad & !DirMask(b.dir);
    }
  }

  /** A click is reported once: asking again at once gives false. */
  lemma ClickReadOnce(s: Ps4, b: Button)
    ensures !GetButtonClick(GetButtonClick(s, b).0, b).1
  {
  }

  /** `getAnalogButton`: the first trigger value for L2, the second for R2, 0
      for every other button. */
  function GetAnalogButton(s: Ps4, b: Button): (r: byte)
    ensures b == L2 ==> r == s.data.triggers[0]
    ensures b == R2 ==> r == s.data.triggers[1]
    ensures r != 0 ==> b == L2 || b == R2
  {
    match b
    case L2 => s.data.triggers[0]
    case R2 => s.data.triggers[1]
    case _ => 0
  }

  /** The direction bits remembered by the parser are those of the remembered
      hat value. */
  predicate Synced(s: Ps4) {
    s.oldDpad == DpadBits(s.oldButtons.dpad)
  }

  /** Lines 109-128 of `Parse`, on the report just copied in: when the button
      word changed, every newly set bit is OR-ed into the click word and the
      word is remembered; when the direction bits changed too, the direction
      nibble of the click word is overwritten with the newly pressed
      directions. */
  function Latch(s: Ps4): (r: Ps4)
    ensures r.data == s.data && r.output == s.output
    ensures s.data.buttons == s.oldButtons ==> r == s
    ensures s.data.buttons != s.oldButtons ==>
      r.oldButtons == s.data.buttons
      && r.click.bits == s.click.bits + (s.data.buttons.bits - s.oldButtons.bits)
    ensures s.data.buttons != s.oldButtons && DpadBits(s.data.buttons.dpad) != s.oldDpad ==>
      r.click.dpad == DpadBits(s.data.buttons.dpad) & !s.oldDpad
      && r.oldDpad == DpadBits(s.data.buttons.dpad)
    ensures s.data.buttons != s.oldButtons && DpadBits(s.data.buttons.dpad) == s.oldDpad ==>
      r.click.dpad == s.click.dpad | (s.data.buttons.dpad & !s.oldButtons.dpad)
      && r.oldDpad == s.oldDpad
  {
    var nb := s.data.buttons;
    if nb == s.oldButtons then s
    else
      var click := Buttons(s.click.dpad | (nb.dpad & !s.oldButtons.dpad),
                           s.click.bits + (nb.bits - s.oldButtons.bits));
      var newDpad := DpadBits(nb.dpad);
      if newDpad != s.oldDpad then
        s.(click := click.(dpad := newDpad & !s.oldDpad), oldButtons := nb, oldDpad := newDpad)
      else
        s.(click := click, oldButtons := nb)
  }

  /** Where a report's button word starts among the received octets: after
      the report ID for report 0x01, three octets in for the Bluetooth report
      0x11 (which must be at least 4 octets long), nowhere for any other ID. */
  function ReportOffset(len: nat, buf: seq<byte>): (r: Option<nat>)
    requires 1 < len <= |buf|
    ensures r.Some? ==> r.value < len
    ensures r == Some(1) <==> buf[0] == 0x01
    ensures r == Some(3) <==> buf[0] == 0x11 && len >= 4
    ensures r.None? <==> buf[0] != 0x01 && (buf[0] != 0x11 || len < 4)
  {
    if buf[0] == 0x01 then Some(1)
    else if buf[0] == 0x11 && len >= 4 then Some(3)
    else None
  }

  /** `Parse(len, buf)`. `copy(data, octets)` is the `memcpy` of the report
      octets over the input report (as many as the report holds). The second
      result says whether the output report is sent. */
  function Parse(s: Ps4, len: byte, buf: Option<seq<byte>>, copy: (Report, seq<byte>) -> Report): (r: (Ps4, bool))
    requires buf.Some? ==> |buf.value| >= len as int
    ensures r.1 ==> s.output.reportChanged
    ensures r.0.output == s.output
    ensures Synced(s) ==> Synced(r.0)
    ensures r.0 != s ==> len > 1 && buf.Some? && buf.value[0] in {0x01, 0x11}
  {
    var n := len as int;
    if n > 1 && buf.Some? then
      match ReportOffset(n, buf.value)
      case Some(k) => (Latch(s.(data := copy(s.data, buf.value[k..n]))), s.output.reportChanged)
      case None => (s, false)
    else (s, s.output.reportChanged)
  }

  /** A report that is too short, missing, of an unknown ID, or a Bluetooth
      report shorter than 4 octets changes nothing; only the first two still
      reach the output report. */
  lemma ParseIgnores(s: Ps4, len: byte, buf: Option<seq<byte>>, copy: (Report, seq<byte>) -> Report)
    requires buf.Some? ==> |buf.value| >= len as int
    requires len <= 1 || buf.None?
      || buf.value[0] !in {0x01, 0x11}
      || (buf.value[0] == 0x11 && len < 4)
    ensures Parse(s, len, buf, copy).0 == s
    ensures Parse(s, len, buf, copy).1 <==> (len <= 1 || buf.None?) && s.output.reportChanged
  {
  }

  /** An accepted report is copied in from behind its header and latched, and
      the output report is sent when it changed. */
  lemma ParseAccepts(s: Ps4, len: byte, buf: seq<byte>, copy: (Report, seq<byte>) -> Report)
    requires |buf| >= len as int > 1
    requires buf[0] == 0x01 || (buf[0] == 0x11 && len >= 4)
    ensures var k := if buf[0] == 0x01 then 1 else 3;
      Parse(s, len, Some(buf), copy) == (Latch(s.(data := copy(s.data, buf[k..len]))), s.output.reportChanged)
  {
  }

  /** The remembered direction bits stay those of the remembered hat value. */
  lemma ParseKeepsSynced(s: Ps4, len: byte, buf: Option<seq<byte>>, copy: (Report, seq<byte>) -> Report)
    requires buf.Some? ==> |buf.value| >= len as int
    requires Synced(s)
    ensures Synced(Parse(s, len, buf, copy).0)
  {
  }

  /** Rising edge: a button that was released in the remembered word and is
      pressed in the report just copied in is clicked afterwards, and
      `getButtonClick` then reports it. */
  lemma {:induction false} PressLatchesClick(s: Ps4, b: Button)
    requires Synced(s)
    requires !Pressed(s.oldButtons, b) && Pressed(s.data.buttons, b)
    ensures Clicked(Latch(s).click, b)
    ensures GetButtonClick(Latch(s), b).1
  {
    var nb := s.data.buttons;
    assert nb != s.oldButtons;
    match b
    case Dpad(d) =>
      var m := DirMask(d);
      assert DpadBits(nb.dpad) & m != 0;
      assert s.oldDpad & m == 0;
      assert DpadBits(nb.dpad) != s.oldDpad;
      assert Latch(s).click.dpad == DpadBits(nb.dpad) & !s.oldDpad;
      assert (DpadBits(nb.dpad) & !s.oldDpad) & m != 0;
    case Unmapped =>
    case _ =>
      assert Position(b) in nb.bits - s.oldButtons.bits;
  }

  /** A latched click of a digital button survives every later report until
      it is read. */
  lemma ParseKeepsClicks(s: Ps4, len: byte, buf: Option<seq<byte>>, copy: (Report, seq<byte>) -> Report, b: Button)
    requires buf.Some? ==> |buf.value| >= len as int
    requires !b.Dpad? && Clicked(s.click, b)
    ensures Clicked(Parse(s, len, buf, copy).0.click, b)
  {
  }

  /** With well-formed hat values on both sides, a change of the hat value
      replaces the direction clicks with exactly the newly pressed directions,
      whatever was latched there before. */
  lemma {:induction false} HatChangeOverwrites(s: Ps4)
    requires Synced(s)
    requires s.oldButtons.dpad <= DPAD_OFF && s.data.buttons.dpad <= DPAD_OFF
    requires s.data.buttons.dpad != s.oldButtons.dpad
    ensures Latch(s).click.dpad == DpadBits(s.data.buttons.dpad) & !DpadBits(s.oldButtons.dpad)
  {
    DpadBitsInjective(s.data.buttons.dpad, s.oldButtons.dpad);
  }

  function Fill<T>(n: nat, v: T): (r: seq<T>)
    ensures |r| == n && forall i :: 0 <= i < n ==> r[i] == v
  {
    seq(n, i => v)
  }

  /** The word `Reset` leaves in the button fields: nothing pressed, the hat
      released. */
  const RELEASED := Buttons(DPAD_OFF, {})

  /** `Reset`: the sticks centred (127), buttons and triggers released, every
      touch-pad finger lifted, no direction click and no remembered direction,
      and the output report cleared and marked unchanged. The clicks of the
      other buttons are kept. */
  function Reset(s: Ps4): (r: Ps4)
    ensures |r.data.hats| == |s.data.hats| && forall i :: 0 <= i < |r.data.hats| ==> r.data.hats[i] == 127
    ensures forall b :: !GetButtonPress(r, b) && GetAnalogButton(r, b) == 0
    ensures forall d :: !Clicked(r.click, Dpad(d))
    ensures r.click.bits == s.click.bits
    ensures Synced(r)
    ensures !r.output.reportChanged
    ensures r.output == Output(0, 0, 0, 0, 0, 0, 0, false)
  {
    Ps4(Report(Fill(|s.data.hats|, 127), RELEASED, [0, 0], Fill(|s.data.notTouching|, true)),
        RELEASED, Buttons(0, s.click.bits), 0, Output(0, 0, 0, 0, 0, 0, 0, false))
  }

  /** After `Reset`, a report with nothing pressed latches no click and sends
      nothing. */
  lemma ResetThenIdleReport(s: Ps4, len: byte, buf: seq<byte>, copy: (Report, seq<byte>) -> Report)
    requires |buf| >= len as int > 1 && buf[0] == 0x01
    requires copy(Reset(s).data, buf[1..len]).buttons == RELEASED
    ensures Parse(Reset(s), len, Some(buf), copy).0.click == Reset(s).click
    ensures !Parse(Reset(s), len, Some(buf), copy).1
  {
  }
}
