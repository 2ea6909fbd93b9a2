/** The fixed configuration of the application (constants.ts). */
module Constants {
  import opened Types

  /** Minimum horizontal palm movement between two samples that counts as a swipe. */
  const SwipeThreshold: real := 0.05

  /** Minimum time, in milliseconds, between two emitted gestures. */
  const CooldownMs: int := 800

  /** The initial carousel content. The source entries carry no media kind, so at run time
      none of them is a video; they are modelled as images. */
  function PhotoItems(): seq<PhotoItem> {
    [ PhotoItem(1, "https://picsum.photos/id/10/600/1067", "Misty Forest", "Mysterious Nature", Image),
      PhotoItem(2, "https://picsum.photos/id/28/600/1067", "Forest Path", "Adventure", Image),
      PhotoItem(3, "https://picsum.photos/id/49/600/1067", "Misty Coast", "Tranquility", Image),
      PhotoItem(4, "https://picsum.photos/id/54/600/1067", "Deep Canyon", "Vastness", Image),
      PhotoItem(5, "https://picsum.photos/id/60/600/1067", "Office Tech", "Productivity", Image),
      PhotoItem(6, "https://picsum.photos/id/119/600/1067", "Metal Work", "Industrial", Image),
      PhotoItem(7, "https://picsum.photos/id/164/600/1067", "City Boat", "Urban Life", Image),
      PhotoItem(8, "https://picsum.photos/id/180/600/1067", "Laptop Work", "Focus", Image) ]
  }

  /** The initial content has eight entries whose ids are 1 to 8 in order, hence distinct keys. */
  lemma PhotoItemsShape()
    ensures |PhotoItems()| == 8
    ensures forall i :: 0 <= i < |PhotoItems()| ==> PhotoItems()[i].id == i + 1
    ensures DistinctIds(PhotoItems())
  {
  }

  /** The thresholds are positive, so the no-swipe band [-0.05, 0.05] is symmetric and non-empty
      and a second emission at the same instant is impossible. */
  lemma ThresholdsPositive()
    ensures SwipeThreshold > 0.0 && -SwipeThreshold < SwipeThreshold
    ensures CooldownMs > 0
  {
  }
}
