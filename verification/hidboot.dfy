/** The locking-key LEDs of the boot-protocol keyboard parser: the LED byte
    the parser keeps and the toggles of Num Lock, Caps Lock and Scroll Lock. */
module HidBoot {
  import opened Bytes

  /** Usage IDs of the three locking keys. */
  const KEY_CAPS_LOCK: byte := 0x39
  const KEY_SCROLL_LOCK: byte := 0x47
  const KEY_NUM_LOCK: byte := 0x53

  /** The LED byte: Num Lock is bit 0, Caps Lock bit 1, Scroll Lock bit 2,
      then Compose, Kana and three reserved bits. */
  type Leds = bv8

  const NUM_LOCK_LED: Leds := 1
  const CAPS_LOCK_LED: Leds := 2
  const SCROLL_LOCK_LED: Leds := 4

  /** The one-bit field `m` of the LED byte is set. */
  predicate Lit(l: Leds, m: Leds) { l & m != 0 }

  predicate NumLock(l: Leds) { Lit(l, NUM_LOCK_LED) }
  predicate CapsLock(l: Leds) { Lit(l, CAPS_LOCK_LED) }
  predicate ScrollLock(l: Leds) { Lit(l, SCROLL_LOCK_LED) }

  /** The keyboard parser state this model keeps. */
  datatype KeyboardReportParser = KeyboardReportParser(leds: Leds)

  /** The constructor: every LED off. */
  function NewKeyboardReportParser(): (p: KeyboardReportParser)
    ensures !NumLock(p.leds) && !CapsLock(p.leds) && !ScrollLock(p.leds)
    ensures p.leds == 0
  {
    KeyboardReportParser(0)
  }

  /** The LED a key toggles, if it is a locking key. */
  function LedOf(key: byte): (m: Leds)
    ensures m in {0, NUM_LOCK_LED, CAPS_LOCK_LED, SCROLL_LOCK_LED}
  {
    if key == KEY_NUM_LOCK then NUM_LOCK_LED
    else if key == KEY_CAPS_LOCK then CAPS_LOCK_LED
    else if key == KEY_SCROLL_LOCK then SCROLL_LOCK_LED
    else 0
  }

  /** `field = ~field` on the one-bit field `m` of the LED byte. */
  function Invert(l: Leds, m: Leds): (r: Leds)
    requires m in {NUM_LOCK_LED, CAPS_LOCK_LED, SCROLL_LOCK_LED}
    ensures Lit(r, m) != Lit(l, m)
    ensures r & !m == l & !m
  {
    (l & !m) | (if Lit(l, m) then 0 else m)
  }

  /** `HandleLockingKeys(key)`: a locking key inverts its own one-bit LED
      field; any other key changes nothing. The result is always 0 (the LED
      report to the keyboard is not sent). */
  function HandleLockingKeys(p: KeyboardReportParser, key: byte): (r: (KeyboardReportParser, byte))
    ensures r.1 == 0
    ensures key == KEY_NUM_LOCK ==>
      NumLock(r.0.leds) != NumLock(p.leds) && r.0.leds & !NUM_LOCK_LED == p.leds & !NUM_LOCK_LED
    ensures key == KEY_CAPS_LOCK ==>
      CapsLock(r.0.leds) != CapsLock(p.leds) && r.0.leds & !CAPS_LOCK_LED == p.leds & !CAPS_LOCK_LED
    ensures key == KEY_SCROLL_LOCK ==>
      ScrollLock(r.0.leds) != ScrollLock(p.leds) && r.0.leds & !SCROLL_LOCK_LED == p.leds & !SCROLL_LOCK_LED
    ensures key !in {KEY_NUM_LOCK, KEY_CAPS_LOCK, KEY_SCROLL_LOCK} ==> r.0 == p
  {
    var m := LedOf(key);
    if m == 0 then (p, 0) else (KeyboardReportParser(Invert(p.leds, m)), 0)
  }

  /** Every key's effect is an exclusive-or with its LED, so the same key
      handled twice gives the LED byte back. */
  lemma LockingKeyToggles(p: KeyboardReportParser, key: byte)
    ensures HandleLockingKeys(p, key).0.leds == p.leds ^ LedOf(key)
    ensures HandleLockingKeys(HandleLockingKeys(p, key).0, key).0 == p
  {
  }

  /** From a fresh parser, one press of a locking key lights that key's LED
      and no other. */
  lemma FirstPressLightsOnlyItsLed(key: byte)
    requires key in {KEY_NUM_LOCK, KEY_CAPS_LOCK, KEY_SCROLL_LOCK}
    ensures HandleLockingKeys(NewKeyboardReportParser(), key).0.leds == LedOf(key)
    ensures NumLock(HandleLockingKeys(NewKeyboardReportParser(), key).0.leds) <==> key == KEY_NUM_LOCK
    ensures CapsLock(HandleLockingKeys(NewKeyboardReportParser(), key).0.leds) <==> key == KEY_CAPS_LOCK
    ensures ScrollLock(HandleLockingKeys(NewKeyboardReportParser(), key).0.leds) <==> key == KEY_SCROLL_LOCK
  {
  }
}
