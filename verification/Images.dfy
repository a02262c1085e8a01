/** Row-oriented images. */
module Images {
  import opened Colors

  datatype Image = Image(width: nat, height: nat, pixels: seq<Color>) {
    ghost predicate Valid() {
      0 < width && 0 < height && |pixels| == width * height
    }

    /// The pixel at column x of row y; reading it is in bounds exactly because of this lemma's fact.
    function At(x: nat, y: nat): Color
      requires Valid() && x < width && y < height
    {
      IndexInRange(x, y, width, height);
      pixels[y * width + x]
    }
  }

  lemma IndexInRange(x: nat, y: nat, width: nat, height: nat)
    requires x < width && y < height
    ensures y * width + x < width * height
  {
    assert (y + 1) * width <= height * width;
  }
}
