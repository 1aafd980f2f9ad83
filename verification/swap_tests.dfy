/** The unit tests of swap.rs, as lemmas about the model. Each test places
    its fixtures at the origin; the lemmas prove the same outcome for every
    placement `(x, y)` of the whole arrangement that keeps the coordinates in
    the `i32` range, the tests' being `x == y == 0`. The fixtures are whole
    monitors as `NewMonitor` builds them. */
module SwapTests {
  import opened Arith
  import opened Swap
  import opened Wrappers

  /** Two 2560x1440 monitors side by side: the left half of one becomes the
      left half of the other. */
  lemma QhdPair(x: i32, y: i32)
    requires IsI32(x + 5120) && IsI32(y + 1440)
    ensures SwapCoords(NewMonitor(x, x + 2560, y, y + 1440), NewMonitor(x + 2560, x + 5120, y, y + 1440),
                       Rect(x, x + 1280, y, y + 1440))
         == Some(Rect(x + 2560, x + 3840, y, y + 1440))
  {
  }

  /** A 1920x1080 monitor and a 3840x2160 one to its right: the left half of
      the first becomes the left half of the second, at twice the size. */
  lemma HdTo4k(x: i32, y: i32)
    requires IsI32(x + 5760) && IsI32(y + 2160)
    ensures SwapCoords(NewMonitor(x, x + 1920, y, y + 1080), NewMonitor(x + 1920, x + 5760, y, y + 2160),
                       Rect(x, x + 960, y, y + 1080))
         == Some(Rect(x + 1920, x + 3840, y, y + 2160))
  {
    HdTo4kScales();
  }

  /** The four ratios of `HdTo4k`, each an exact multiple. */
  lemma HdTo4kScales()
    ensures Scale(0, 1920, 3840) == 0 && Scale(960, 1920, 3840) == 1920
    ensures Scale(0, 1080, 2160) == 0 && Scale(1080, 1080, 2160) == 2160
  {
    TruncDivOfMultiple(0, 1920);
    TruncDivOfMultiple(1920, 1920);
    TruncDivOfMultiple(0, 1080);
    TruncDivOfMultiple(2160, 1080);
  }
}
