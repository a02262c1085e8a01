/** The border processor object: detection, blur and hysteresis for one image at a time. */
module BlackBorderProcessors {
  import opened Colors
  import opened Images
  import opened BorderHysteresis
  import opened BlackBorderDetectors
  import opened BorderSizes

  class BlackBorderProcessor {
    const cfg: Config
    const blurRemoveCnt: nat
    const detectionMode: Mode
    const detector: BlackBorderDetector
    var enabled: bool
    var currentBorder: BlackBorder
    var previousDetectedBorder: BlackBorder
    var consistentCnt: nat
    var inconsistentCnt: nat

    ghost function Value(): State
      reads this
    {
      State(currentBorder, previousDetectedBorder, consistentCnt, inconsistentCnt)
    }

    /// b is what an enabled processor sees in img, blur included.
    ghost predicate Sees(img: Image, b: BlackBorder)
      requires img.Valid()
    {
      exists d :: Detected(detectionMode, detector.threshold, img, d) && b == AddBlur(d, blurRemoveCnt)
    }

    constructor (cfg: Config, blurRemoveCnt: nat, detectionMode: Mode, threshold: byte, enabled: bool)
      ensures this.cfg == cfg && this.blurRemoveCnt == blurRemoveCnt && this.detectionMode == detectionMode
      ensures detector.threshold == threshold && this.enabled == enabled && Value() == INITIAL
    {
      this.cfg, this.blurRemoveCnt, this.detectionMode := cfg, blurRemoveCnt, detectionMode;
      this.detector := new BlackBorderDetector(threshold);
      this.enabled := enabled;
      currentBorder := BlackBorder(true, -1, -1);
      previousDetectedBorder := BlackBorder(true, -1, -1);
      consistentCnt, inconsistentCnt := 0, 10;
    }

    method SetEnabled(enable: bool)
      modifies this`enabled
      ensures enabled == enable
    {
      enabled := enable;
    }

    method UpdateBorder(newDetectedBorder: BlackBorder) returns (borderChanged: bool)
      modifies this`currentBorder, this`previousDetectedBorder, this`consistentCnt, this`inconsistentCnt
      ensures (Value(), borderChanged) == BorderHysteresis.UpdateBorder(cfg, old(Value()), newDetectedBorder)
    {
      if Same(newDetectedBorder, previousDetectedBorder) {
        consistentCnt := consistentCnt + 1;
        inconsistentCnt := 0;
      } else {
        inconsistentCnt := inconsistentCnt + 1;
        if inconsistentCnt <= cfg.maxInconsistentCnt {
          return false;
        }
        previousDetectedBorder := newDetectedBorder;
        consistentCnt := 0;
      }
      // from here on the frame agrees with the candidate
      if Same(currentBorder, newDetectedBorder) {
        inconsistentCnt := 0;
        return false;
      }
      borderChanged := false;
      if newDetectedBorder.unknown {
        if consistentCnt == cfg.unknownSwitchCnt {
          currentBorder := newDetectedBorder;
          borderChanged := true;
        }
      } else {
        if currentBorder.unknown || consistentCnt == cfg.borderSwitchCnt {
          currentBorder := newDetectedBorder;
          borderChanged := true;
        }
      }
    }

    /// An enabled processor feeds the blurred border of this image to the hysteresis and, when that
    /// reports a change, the current border is the one seen in this very image.
    method Process(img: Image) returns (borderUpdated: bool)
      requires img.Valid()
      modifies this`currentBorder, this`previousDetectedBorder, this`consistentCnt, this`inconsistentCnt
      ensures !enabled ==> borderUpdated && Value() == Step(cfg, old(Value()), Disabled)
      ensures enabled ==>
        exists b :: Sees(img, b) && (Value(), borderUpdated) == BorderHysteresis.UpdateBorder(cfg, old(Value()), b)
      ensures enabled && borderUpdated ==> Sees(img, currentBorder)
    {
      var imageBorder: BlackBorder;
      if !enabled {
        imageBorder := BlackBorder(true, 0, 0);
        currentBorder := imageBorder;
        return true;
      }
      match detectionMode {
        case Default => imageBorder := detector.Process(img);
        case Classic => imageBorder := detector.ProcessClassic(img);
        case Osd => imageBorder := detector.ProcessOsd(img);
      }
      ghost var d := imageBorder;
      // only real bars are widened
      if imageBorder.horizontalSize > 0 {
        imageBorder := imageBorder.(horizontalSize := imageBorder.horizontalSize + blurRemoveCnt);
      }
      if imageBorder.verticalSize > 0 {
        imageBorder := imageBorder.(verticalSize := imageBorder.verticalSize + blurRemoveCnt);
      }
      assert Sees(img, imageBorder) by {
        assert Detected(detectionMode, detector.threshold, img, d) && imageBorder == AddBlur(d, blurRemoveCnt);
      }
      ChangedIffDifferent(cfg, Value(), imageBorder);
      borderUpdated := UpdateBorder(imageBorder);
    }
  }
}
