/** The smoothing object itself: fields updated in place, each method tied to its step in Smoothing. */
module LinearColorSmoothings {
  import opened Colors
  import opened Smoothing

  class LinearColorSmoothing {
    const cfg: Config
    var targetTime: int
    var targetValues: Frame
    var previousTime: int
    var previousValues: Frame
    var outputQueue: seq<Frame>
    var writeToLedsEnable: bool
    var timerActive: bool
    var enabled: bool
    /// Every frame handed to the led device so far.
    ghost var device: seq<Frame>

    ghost function Value(): State
      reads this
    {
      State(targetTime, targetValues, previousTime, previousValues, outputQueue, writeToLedsEnable, timerActive, device)
    }

    constructor (settlingTime: int, updateDelay: nat, continuousOutput: bool)
      ensures cfg == Config(settlingTime, updateDelay, continuousOutput)
      ensures Initial(Value()) && Smoothing.Valid(cfg, Value()) && enabled
    {
      cfg := Config(settlingTime, updateDelay, continuousOutput);
      targetTime, previousTime := 0, 0;
      targetValues, previousValues, outputQueue := [], [], [];
      writeToLedsEnable, timerActive, enabled := true, false, true;
      device := [];
    }

    method Write(now: int, ledValues: Frame)
      requires previousValues != [] ==> |ledValues| <= |targetValues|
      modifies this
      ensures Value() == WriteStep(cfg, old(Value()), now, ledValues) && enabled == old(enabled)
    {
      if previousValues == [] {
        targetTime := now + cfg.settlingTime;
        targetValues := ledValues;
        previousTime := now;
        previousValues := ledValues;
        timerActive := true;
      } else {
        targetTime := now + cfg.settlingTime;
        targetValues := ledValues + targetValues[|ledValues|..];
      }
    }

    method SwitchOff()
      modifies this
      ensures Value() == SwitchOffStep(old(Value())) && enabled == old(enabled)
    {
      var black: Frame := Blacks(|targetValues|);
      targetValues := black;
      targetTime := 0;
      ghost var was := outputQueue;
      for i := 0 to |outputQueue|
        invariant |outputQueue| == |was|
        invariant outputQueue == was[i..] + seq(i, j => black)
        invariant Value() == old(Value()).(target := black, targetTime := 0, queue := outputQueue)
        invariant enabled == old(enabled)
      {
        outputQueue := outputQueue + [black];
        outputQueue := outputQueue[1..];
      }
      assert was[|was|..] == [];
    }

    method SetEnable(enable: bool)
      modifies this
      ensures Value() == SetEnableStep(old(Value()), enable) && enabled == enable
    {
      enabled := enable;
      if !enable {
        timerActive := false;
        previousValues := [];
      }
    }

    method QueueColors(ledColors: Frame)
      modifies this
      ensures Value() == QueueStep(cfg, old(Value()), ledColors) && enabled == old(enabled)
    {
      if cfg.outputDelay == 0 {
        if writeToLedsEnable { device := device + [ledColors]; }
      } else {
        if writeToLedsEnable { outputQueue := outputQueue + [ledColors]; }
        if |outputQueue| > 0 {
          if |outputQueue| > cfg.outputDelay || !writeToLedsEnable {
            device := device + [outputQueue[0]];
            outputQueue := outputQueue[1..];
          }
        }
      }
    }

    static method RampByte(prev: byte, target: byte, k: real) returns (b: byte)
      requires 0.0 <= k <= 1.0
      ensures b == RampChannel(prev, target, k)
    {
      var dif: int := target - prev;
      CeilWithin(k, Abs(dif));
      var step := Ceil(k * Abs(dif) as real);
      b := if dif < 0 then prev - step else prev + step;
    }

    /// The ramp loop of the timer callback: each byte moves by ceil(k * |diff|) towards its target.
    method RampValues(k: real)
      requires 0.0 <= k <= 1.0 && |previousValues| == |targetValues|
      modifies this`previousValues
      ensures previousValues == RampFrame(old(previousValues), targetValues, k)
    {
      ghost var was := previousValues;
      for i := 0 to |previousValues|
        invariant |previousValues| == |was|
        invariant forall j | 0 <= j < i :: previousValues[j] == RampColor(was[j], targetValues[j], k)
        invariant forall j | i <= j < |was| :: previousValues[j] == was[j]
      {
        var prev, target := previousValues[i], targetValues[i];
        var red := RampByte(prev.red, target.red, k);
        var green := RampByte(prev.green, target.green, k);
        var blue := RampByte(prev.blue, target.blue, k);
        previousValues := previousValues[i := Color(red, green, blue)];
      }
    }

    /// The timer callback.
    method UpdateLeds(now: int)
      requires CanTick(Value(), now)
      modifies this
      ensures Value() == TickStep(cfg, old(Value()), now) && enabled == old(enabled)
    {
      var deltaTime := targetTime - now;
      if deltaTime < 0 {
        previousValues := targetValues;
        previousTime := now;
        QueueColors(previousValues);
        writeToLedsEnable := cfg.continuousOutput;
      } else {
        writeToLedsEnable := true;
        FractionInRange(now, previousTime, targetTime);
        var k := 1.0 - deltaTime as real / (targetTime - previousTime) as real;
        RampValues(k);
        previousTime := now;
        QueueColors(previousValues);
      }
    }
  }
}
