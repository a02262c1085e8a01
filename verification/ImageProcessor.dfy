/** From images to led colours: size, border and mapping kept consistent over any run of frames. */
module ImageProcessors {
  import opened Colors
  import opened Images
  import opened BorderHysteresis
  import opened BlackBorderDetectors
  import opened BorderSizes
  import opened BlackBorderProcessors
  import opened LedsMapGeometry
  import opened BorderMaps
  import opened ImageToLedsMaps

  class ImageProcessor {
    const leds: seq<Led>
    const borderProcessor: BlackBorderProcessor
    var imageToLeds: ImageToLedsMap?
    var mappingType: int

    ghost predicate Valid()
      reads this, imageToLeds
    {
      && (forall l | l in leds :: ValidLed(l))
      && (imageToLeds != null ==> imageToLeds.Valid(leds))
    }

    /// The map's borders, the switch and the hysteresis: what the run theorems speak about.
    ghost function Value(): Processor
      reads this, imageToLeds, borderProcessor
    {
      Processor(if imageToLeds == null then NoMap else MapOf(imageToLeds.b), borderProcessor.enabled,
                borderProcessor.Value())
    }

    /// An enabled detector sees b in the image.
    ghost predicate Shows(image: Image, b: BlackBorder)
      requires image.Valid()
      reads borderProcessor
    {
      Proper(b) && (borderProcessor.enabled ==> borderProcessor.Sees(image, b))
    }

    /// The map in use was built for images of this size.
    ghost predicate MapFor(img: Image)
      reads this, imageToLeds
    {
      imageToLeds != null && imageToLeds.b.width == img.width && imageToLeds.b.height == img.height
    }

    /// Whatever an enabled detector may report in an image of this size leaves some picture.
    predicate Suits(img: Image)
      reads borderProcessor
    {
      borderProcessor.enabled ==>
        LargeEnough(borderProcessor.detectionMode, borderProcessor.detector.threshold, borderProcessor.blurRemoveCnt,
                    img.width, img.height)
    }

    constructor (leds: seq<Led>, borderProcessor: BlackBorderProcessor)
      requires forall l | l in leds :: ValidLed(l)
      ensures Valid() && this.leds == leds && this.borderProcessor == borderProcessor
      ensures imageToLeds == null && mappingType == 0
    {
      this.leds, this.borderProcessor := leds, borderProcessor;
      imageToLeds, mappingType := null, 0;
    }

    method SetSize(width: nat, height: nat)
      requires Valid() && 0 < width && 0 < height
      modifies this`imageToLeds
      ensures Valid() && imageToLeds != null && imageToLeds.b.width == width && imageToLeds.b.height == height
      ensures imageToLeds == old(imageToLeds) || fresh(imageToLeds)
      ensures Value() == SizeStep(old(Value()), width, height)
    {
      if imageToLeds != null && imageToLeds.b.width == width && imageToLeds.b.height == height {
        return;
      }
      imageToLeds := new ImageToLedsMap(width, height, 0, 0, leds);
    }

    method EnableBlackBorderDetector(enable: bool)
      modifies borderProcessor`enabled
      ensures borderProcessor.enabled == enable
    {
      borderProcessor.SetEnabled(enable);
    }

    /// Every map built here satisfies the sanity checks of its constructor. The border seen in this image
    /// goes through the hysteresis, and the map follows its switches.
    method VerifyBorder(image: Image)
      requires Valid() && image.Valid() && MapFor(image) && Suits(image)
      modifies this`imageToLeds
      modifies borderProcessor`currentBorder, borderProcessor`previousDetectedBorder,
               borderProcessor`consistentCnt, borderProcessor`inconsistentCnt
      ensures Valid() && MapFor(image)
      ensures exists seen ::
        && Shows(image, seen)
        && Value() == VerifyStep(borderProcessor.cfg, old(Value()), image.width, image.height, seen)
        && (borderProcessor.enabled ==>
              (borderProcessor.Value(), imageToLeds != old(imageToLeds)) ==
              UpdateBorder(borderProcessor.cfg, old(borderProcessor.Value()), seen))
    {
      ghost var was, cfg := Value(), borderProcessor.cfg;
      ghost var nothing := BlackBorder(true, -1, -1);
      assert !borderProcessor.enabled ==> Shows(image, nothing);
      if !borderProcessor.enabled && (imageToLeds.b.horizontalBorder != 0 || imageToLeds.b.verticalBorder != 0) {
        var _ := borderProcessor.Process(image);
        imageToLeds := new ImageToLedsMap(image.width, image.height, 0, 0, leds);
      }
      if borderProcessor.enabled {
        ghost var before := borderProcessor.Value();
        var switchRequired := borderProcessor.Process(image);
        ghost var seen :| borderProcessor.Sees(image, seen)
          && (borderProcessor.Value(), switchRequired) == UpdateBorder(borderProcessor.cfg, before, seen);
        ChangedIffDifferent(borderProcessor.cfg, before, seen);
        SeenIsProper(borderProcessor, image, seen);
        if switchRequired {
          var border := borderProcessor.currentBorder;
          if border.unknown {
            imageToLeds := new ImageToLedsMap(image.width, image.height, 0, 0, leds);
          } else {
            SeenBorderFits(borderProcessor, image, border);
            imageToLeds :=
              new ImageToLedsMap(image.width, image.height, border.horizontalSize, border.verticalSize, leds);
          }
        }
        assert Shows(image, seen) && Value() == VerifyStep(cfg, was, image.width, image.height, seen);
      } else {
        assert Shows(image, nothing) && Value() == VerifyStep(cfg, was, image.width, image.height, nothing);
      }
    }

    static lemma SeenIsProper(p: BlackBorderProcessor, image: Image, border: BlackBorder)
      requires image.Valid() && p.Sees(image, border)
      ensures Proper(border)
    {
    }

    static lemma SeenBorderFits(p: BlackBorderProcessor, image: Image, border: BlackBorder)
      requires image.Valid() && p.Sees(image, border) && !border.unknown
      requires LargeEnough(p.detectionMode, p.detector.threshold, p.blurRemoveCnt, image.width, image.height)
      ensures 0 <= border.verticalSize && image.width > 2 * border.verticalSize
      ensures 0 <= border.horizontalSize && image.height > 2 * border.horizontalSize
    {
      var d :| Detected(p.detectionMode, p.detector.threshold, image, d) && border == AddBlur(d, p.blurRemoveCnt);
      DetectedLeavesPicture(p.detectionMode, p.detector.threshold, image, d, p.blurRemoveCnt);
    }

    /// End to end: whatever frames and switches came before, one more large enough image trips no
    /// check, reads only its own pixels, and gives each led the mean of its list (or of the image).
    method Process(image: Image, ledColors: array<Color>)
      requires Valid() && image.Valid() && Suits(image) && ledColors.Length == |leds|
      modifies this`imageToLeds, ledColors
      modifies borderProcessor`currentBorder, borderProcessor`previousDetectedBorder,
               borderProcessor`consistentCnt, borderProcessor`inconsistentCnt
      ensures Valid() && MapFor(image)
      ensures exists seen ::
        && Shows(image, seen)
        && Value() == FrameStep(borderProcessor.cfg, old(Value()), image.width, image.height, seen)
      ensures forall i, k | 0 <= i < |leds| && 0 <= k < |imageToLeds.colorsMap[i]| ::
        imageToLeds.colorsMap[i][k] < |image.pixels|
      ensures forall i | 0 <= i < |leds| ::
        IsMean(image, if mappingType == 1 then seq(|image.pixels|, k => k) else imageToLeds.colorsMap[i], ledColors[i])
    {
      SetSize(image.width, image.height);
      VerifyBorder(image);
      ghost var now := Value();
      ghost var seen :|
        && Shows(image, seen)
        && now == FrameStep(borderProcessor.cfg, old(Value()), image.width, image.height, seen);
      AllIndicesInImage(imageToLeds.b, leds);
      if mappingType == 1 {
        imageToLeds.GetUniLedColor(image, ledColors);
      } else {
        imageToLeds.GetMeanLedColor(image, ledColors, leds);
      }
      assert Value() == now && Shows(image, seen);
    }
  }
}
