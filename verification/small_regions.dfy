/**
 * The small-region removal at the end of `get_cloak_mask`: given the label
 * image and the per-label pixel areas computed by OpenCV's
 * connected-component labelling, keep only the components larger than a
 * fixed area (the cloak) and drop the rest (a hand, noise).
 */
module SmallRegions {
  import opened Images

  /** A component is kept only when its area is strictly above this. */
  const MinArea := 1500

  /**
   * The value the cleaned mask holds at a pixel with label `comp`: 255 for
   * a foreground component (label 1 or more, label 0 being the background)
   * whose area is above MinArea, and 0 otherwise. `areas` has one entry per
   * label, as the statistics table has one row per label.
   */
  function Kept(comp: int, areas: seq<int>): Byte
  {
    if 1 <= comp < |areas| && areas[comp] > MinArea then 255 else 0
  }

  /** The same value after only the labels below `bound` have been visited. */
  function KeptBelow(comp: int, areas: seq<int>, bound: int): Byte
  {
    if 1 <= comp < bound && comp < |areas| && areas[comp] > MinArea then 255 else 0
  }

  /**
   * `clean_mask[labels == i] = 255`: set every pixel of component `i` and
   * leave every other pixel as it was.
   */
  method FillLabel(clean: array2<Byte>, labels: array2<int>, i: int)
    requires clean.Length0 == labels.Length0 && clean.Length1 == labels.Length1
    modifies clean
    ensures forall y, x :: 0 <= y < clean.Length0 && 0 <= x < clean.Length1 ==>
              clean[y, x] == if labels[y, x] == i then 255 else old(clean[y, x])
  {
    var y := 0;
    while y < clean.Length0
      invariant 0 <= y <= clean.Length0
      invariant forall r, x :: 0 <= r < clean.Length0 && 0 <= x < clean.Length1 ==>
                  clean[r, x] == if r < y && labels[r, x] == i then 255 else old(clean[r, x])
    {
      var x := 0;
      while x < clean.Length1
        invariant 0 <= x <= clean.Length1
        invariant forall r, c :: 0 <= r < clean.Length0 && 0 <= c < clean.Length1 ==>
                    clean[r, c] == if (r < y || (r == y && c < x)) && labels[r, c] == i then 255 else old(clean[r, c])
      {
        if labels[y, x] == i {
          clean[y, x] := 255;
        }
        x := x + 1;
      }
      y := y + 1;
    }
  }

  /**
   * The loop of `get_cloak_mask` over labels 1 .. num_labels - 1: a fresh
   * zero mask of the comp image's shape, in which exactly the pixels of
   * large foreground components are 255.
   */
  method RemoveSmallRegions(labels: array2<int>, areas: seq<int>) returns (clean: array2<Byte>)
    ensures fresh(clean)
    ensures clean.Length0 == labels.Length0 && clean.Length1 == labels.Length1
    ensures forall y, x :: 0 <= y < clean.Length0 && 0 <= x < clean.Length1 ==>
              clean[y, x] == Kept(labels[y, x], areas)
    ensures forall y, x :: 0 <= y < clean.Length0 && 0 <= x < clean.Length1 ==>
              clean[y, x] == 0 || clean[y, x] == 255
    ensures forall y, x :: 0 <= y < clean.Length0 && 0 <= x < clean.Length1 ==>
              (clean[y, x] == 255 <==> 1 <= labels[y, x] < |areas| && areas[labels[y, x]] > MinArea)
  {
    clean := new Byte[labels.Length0, labels.Length1]((y, x) => 0);
    var i := 1;
    while i < |areas|
      invariant 1 <= i && (i <= |areas| || i == 1)
      invariant forall y, x :: 0 <= y < clean.Length0 && 0 <= x < clean.Length1 ==>
                  clean[y, x] == KeptBelow(labels[y, x], areas, i)
    {
      if areas[i] > MinArea {
        FillLabel(clean, labels, i);
      }
      i := i + 1;
    }
  }
}
