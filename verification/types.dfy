/** The records and enumerations shared by the hand controller and the carousel (types.ts). */
module Types {

  /** The media kind of a carousel entry: a still image or a looping video. */
  datatype MediaKind = Image | Video

  /** One carousel entry. `id` is its identity and the key it is rendered under;
      `url`, `title` and `theme` are the editable presentation fields. */
  datatype PhotoItem = PhotoItem(id: int, url: string, title: string, theme: string, kind: MediaKind)

  /** The closed set of gestures the application understands; `NoGesture` is the enumeration's NONE. */
  datatype GestureType = NoGesture | SwipeLeft | SwipeRight | Hover {

    /** True for the two gestures the hand controller can emit. */
    predicate IsSwipe() {
      SwipeLeft? || SwipeRight?
    }
  }

  /** One point reported by the hand detector, in normalised frame coordinates. */
  datatype HandLandmark = HandLandmark(x: real, y: real, z: real)

  /** The ids of `items`, in order. */
  function Ids(items: seq<PhotoItem>): (ids: seq<int>)
    ensures |ids| == |items|
    ensures forall i :: 0 <= i < |items| ==> ids[i] == items[i].id
  {
    seq(|items|, i requires 0 <= i < |items| => items[i].id)
  }

  /** No two entries share an id, so the ids can serve as rendering keys. */
  predicate DistinctIds(items: seq<PhotoItem>) {
    forall i, j :: 0 <= i < j < |items| ==> items[i].id != items[j].id
  }
}
