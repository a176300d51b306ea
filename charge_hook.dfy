// The single-command charge hook (useChargeCommand): one charge direction
// and one release direction per side, the two timestamps held as fields and
// updated in place.
module ChargeHook {
  import opened Types
  import Charge

  const DefaultChargeTime := 800
  const DefaultInputWindow := 500

  datatype ChargeCommandConfig = ChargeCommandConfig(
    chargeDirection1P: Direction, chargeDirection2P: Direction,
    releaseDirection1P: Direction, releaseDirection2P: Direction,
    button: Button)

  class ChargeHook {
    const chargeDirection: Direction
    const releaseDirection: Direction
    const button: Button
    const chargeTime: int
    const inputWindow: int
    const enabled: bool
    var chargeStartTime: Option<int>
    var lastChargeEndTime: Option<int>

    /** The two timestamps as one charge state. */
    function State(): Charge.ChargeState
      reads this
    {
      Charge.ChargeState(chargeStartTime, lastChargeEndTime)
    }

    /** The hook with its defaults: side 1P, charge time 800, window 500,
        enabled; no charge in progress or completed. */
    constructor (side: Option<Side>, config: ChargeCommandConfig, chargeTime: Option<int>, inputWindow: Option<int>, enabled: Option<bool>)
      ensures OrElse(side, P1) == P1 ==> chargeDirection == config.chargeDirection1P && releaseDirection == config.releaseDirection1P
      ensures OrElse(side, P1) != P1 ==> chargeDirection == config.chargeDirection2P && releaseDirection == config.releaseDirection2P
      ensures button == config.button
      ensures this.chargeTime == OrElse(chargeTime, DefaultChargeTime)
      ensures this.inputWindow == OrElse(inputWindow, DefaultInputWindow)
      ensures this.enabled == OrElse(enabled, true)
      ensures State() == Charge.NoCharge
    {
      var s := OrElse(side, P1);
      chargeDirection := if s == P1 then config.chargeDirection1P else config.chargeDirection2P;
      releaseDirection := if s == P1 then config.releaseDirection1P else config.releaseDirection2P;
      button := config.button;
      this.chargeTime := OrElse(chargeTime, DefaultChargeTime);
      this.inputWindow := OrElse(inputWindow, DefaultInputWindow);
      this.enabled := OrElse(enabled, true);
      chargeStartTime := None;
      lastChargeEndTime := None;
    }

    /** handleInput: when enabled, the hook steps exactly as the unified
        charge matcher does with the one-element charge set
        [chargeDirection]; when disabled nothing changes and nothing fires. */
    method HandleInput(event: InputRecord) returns (fired: bool)
      modifies this
      ensures !enabled ==> !fired && State() == old(State())
      ensures enabled ==>
        var r := Charge.CheckChargeCommand(old(State()), event, [chargeDirection], releaseDirection, button, chargeTime, inputWindow);
        fired == r.matched && State() == r.newState
    {
      if !enabled {
        return false;
      }
      var buttonPressed := if button == Punch then event.punch else event.kick;
      if event.direction == chargeDirection {
        if chargeStartTime.None? {
          chargeStartTime := Some(event.timestamp);
        }
      } else {
        if chargeStartTime.Some? {
          var chargedDuration := event.timestamp - chargeStartTime.value;
          if chargedDuration >= chargeTime {
            lastChargeEndTime := Some(event.timestamp);
          }
        }
        chargeStartTime := None;
      }
      fired := false;
      if event.direction == releaseDirection && buttonPressed && lastChargeEndTime.Some? {
        var timeSinceCharge := event.timestamp - lastChargeEndTime.value;
        if timeSinceCharge <= inputWindow {
          lastChargeEndTime := None;
          fired := true;
        }
      }
    }
  }
}
