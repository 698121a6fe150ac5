/** The four buttons of `boot/src/buttons.c`: the recovery combination, the
    hold check that confirms it, the any-button test of the panic loop and the
    initialisation chain. A pin read (`gpio_pin_get_dt`) yields 1, 0 or a
    negative error, and time is counted in one-millisecond samples. */
module Buttons {
  import opened Errno

  datatype Button = Back | Up | Center | Down

  /** The order in which the pins are checked and configured. */
  const ORDER: seq<Button> := [Back, Up, Center, Down]

  /** One reading of all four pins. */
  type Sample = Button -> int

  /** `buttons_prf_pressed`: back, up and center read as pressed and down reads
      as released; a pin that fails to read is neither. */
  predicate Combo(s: Sample)
  {
    s(Back) == 1 && s(Up) == 1 && s(Center) == 1 && s(Down) == 0
  }

  /** `pb_buttons_any_pressed`. */
  predicate AnyPressed(s: Sample)
  {
    s(Back) == 1 || s(Up) == 1 || s(Center) == 1 || s(Down) == 1
  }

  /** Some pin reads as pressed exactly when the any-button test holds, and
      the recovery combination counts as a press. */
  lemma AnyPressedIff(s: Sample)
    ensures AnyPressed(s) <==> exists b :: b in ORDER && s(b) == 1
    ensures Combo(s) ==> AnyPressed(s)
  {
    if AnyPressed(s) {
      if s(Back) == 1 { assert Back in ORDER; }
      else if s(Up) == 1 { assert Up in ORDER; }
      else if s(Center) == 1 { assert Center in ORDER; }
      else { assert Down in ORDER; }
    }
  }

  /** The combination is seen at every sample from 0 to `holdMs` ms. */
  predicate Held(pins: nat -> Sample, holdMs: nat)
  {
    forall i: nat :: i <= holdMs ==> Combo(pins(i))
  }

  /** `pb_buttons_prf_requested` over the samples taken at 0, 1, ... ms with a
      hold time of `holdMs` ms: the combination is checked once and then once
      after every millisecond of the hold, giving up at the first sample that
      misses it. Returns the answer and the number of samples taken. */
  method PrfRequested(pins: nat -> Sample, holdMs: nat) returns (requested: bool, taken: nat)
    ensures requested == Held(pins, holdMs)
    ensures 1 <= taken <= holdMs + 1
    ensures requested ==> taken == holdMs + 1
    ensures !requested ==> !Combo(pins(taken - 1)) && forall i: nat :: i < taken - 1 ==> Combo(pins(i))
  {
    if !Combo(pins(0)) {
      return false, 1;
    }
    var i: nat := 0;
    while i < holdMs
      invariant i <= holdMs
      invariant forall j: nat :: j <= i ==> Combo(pins(j))
    {
      if !Combo(pins(i + 1)) {
        return false, i + 2;
      }
      i := i + 1;
    }
    return true, holdMs + 1;
  }

  /** The configuration of `pins` in turn, stopping at the first failure:
      the result and the pins configured, the failing one included. */
  function ConfigureChain(configure: Button -> int, pins: seq<Button>): (r: (int, seq<Button>))
    ensures r.1 <= pins && r.0 <= 0
    ensures r.0 == 0 <==> r.1 == pins && forall b :: b in pins ==> configure(b) >= 0
    ensures r.0 < 0 ==> r.1 != [] && r.0 == configure(r.1[|r.1| - 1])
                        && forall i :: 0 <= i < |r.1| - 1 ==> configure(r.1[i]) >= 0
  {
    if pins == [] then (0, [])
    else if configure(pins[0]) < 0 then (configure(pins[0]), [pins[0]])
    else
      var rest := ConfigureChain(configure, pins[1..]);
      (rest.0, [pins[0]] + rest.1)
  }

  /** `pb_buttons_init`: -ENODEV, before any pin is configured, when a pin's
      device is not ready; otherwise back, up, center and down are configured
      in that order and the first error is returned. */
  function Init(ready: Button -> bool, configure: Button -> int): (r: (int, seq<Button>))
    ensures r.0 == -ENODEV && r.1 == [] <== exists b :: b in ORDER && !ready(b)
    ensures (forall b :: b in ORDER ==> ready(b)) ==> r == ConfigureChain(configure, ORDER)
  {
    if !ready(Back) || !ready(Up) || !ready(Center) || !ready(Down) then (-ENODEV, [])
    else ConfigureChain(configure, ORDER)
  }

  /** Init succeeds exactly when every pin is ready and configures without
      error, and then all four pins are configured. */
  lemma InitSucceeds(ready: Button -> bool, configure: Button -> int)
    ensures Init(ready, configure).0 == 0 <==> forall b :: b in ORDER ==> ready(b) && configure(b) >= 0
    ensures Init(ready, configure).0 == 0 ==> Init(ready, configure).1 == ORDER
  {
  }
}
