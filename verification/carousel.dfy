/** The per-item layout of the carousel (components/Carousel.tsx, `Carousel`). The CSS transforms,
    perspective, tilt and video playback are presentation and are not modelled. */
module Carousel {
  import opened Types

  /** The angle between neighbouring items: a full turn shared out over `count` items. */
  function StepAngle(count: int): (theta: real)
    requires count >= 1
    ensures theta > 0.0
    ensures theta * (count as real) == 360.0
  {
    360.0 / (count as real)
  }

  /** One rendered item: the entry, its angle around the ring, and whether it is highlighted. */
  datatype Placement = Placement(item: PhotoItem, angle: real, isSelected: bool)

  /** The rendered ring for `items` with `selectedIndex` highlighted. */
  function Layout(items: seq<PhotoItem>, selectedIndex: int): (r: seq<Placement>)
    ensures |r| == |items|
    ensures forall i :: 0 <= i < |r| ==> r[i].item == items[i]
    ensures forall i :: 0 <= i < |r| ==> (r[i].isSelected <==> i == selectedIndex)
    ensures forall i :: 0 <= i < |r| ==> r[i].angle == StepAngle(|items|) * (i as real)
  {
    if |items| == 0 then
      []
    else
      var theta := StepAngle(|items|);
      seq(|items|, i requires 0 <= i < |items| => Placement(items[i], theta * (i as real), i == selectedIndex))
  }

  /** The positions of the highlighted items. */
  function SelectedPositions(ring: seq<Placement>): set<int> {
    set i | 0 <= i < |ring| && ring[i].isSelected
  }

  /** Exactly one item is highlighted when the index is in range, and none otherwise. */
  lemma ExactlyOneSelected(items: seq<PhotoItem>, selectedIndex: int)
    ensures 0 <= selectedIndex < |items| ==> SelectedPositions(Layout(items, selectedIndex)) == {selectedIndex}
    ensures !(0 <= selectedIndex < |items|) ==> SelectedPositions(Layout(items, selectedIndex)) == {}
  {
    var ring := Layout(items, selectedIndex);
    if 0 <= selectedIndex < |items| {
      assert ring[selectedIndex].isSelected;
    }
  }

  lemma MulStrictlyMonotone(a: real, x: real, y: real)
    requires a > 0.0 && x < y
    ensures a * x < a * y
  {
  }

  /** Item `i` of `n` sits at a non-negative angle below a full turn. */
  lemma AngleBelowTurn(theta: real, n: real, x: real)
    requires theta > 0.0 && theta * n == 360.0 && 0.0 <= x < n
    ensures 0.0 <= theta * x < 360.0
  {
    MulStrictlyMonotone(theta, x, n);
    MulNonNegative(theta, x);
    var whole, part := theta * n, theta * x;
    assert 0.0 <= part < whole;
  }

  lemma MulNonNegative(a: real, x: real)
    requires a > 0.0 && x >= 0.0
    ensures a * x >= 0.0
  {
  }

  /** Item `i` sits at a non-negative angle below a full turn. */
  lemma AngleInTurn(items: seq<PhotoItem>, selectedIndex: int, i: int)
    requires 0 <= i < |items|
    ensures 0.0 <= Layout(items, selectedIndex)[i].angle < 360.0
  {
    var theta := StepAngle(|items|);
    var angle := Layout(items, selectedIndex)[i].angle;
    assert angle == theta * (i as real);
    AngleBelowTurn(theta, |items| as real, i as real);
  }

  /** Later items sit at larger angles. */
  lemma AngleIncreasing(items: seq<PhotoItem>, selectedIndex: int, i: int, j: int)
    requires 0 <= i < j < |items|
    ensures Layout(items, selectedIndex)[i].angle < Layout(items, selectedIndex)[j].angle
  {
    var theta := StepAngle(|items|);
    var ai, aj := Layout(items, selectedIndex)[i].angle, Layout(items, selectedIndex)[j].angle;
    assert ai == theta * (i as real) && aj == theta * (j as real);
    MulStrictlyMonotone(theta, i as real, j as real);
  }

  /** The angles start at 0, increase strictly along the ring (so they are pairwise distinct)
      and stay below a full turn. */
  lemma AnglesWithinOneTurn(items: seq<PhotoItem>, selectedIndex: int)
    ensures forall i :: 0 <= i < |items| ==> 0.0 <= Layout(items, selectedIndex)[i].angle < 360.0
    ensures forall i, j :: 0 <= i < j < |items| ==> Layout(items, selectedIndex)[i].angle < Layout(items, selectedIndex)[j].angle
  {
    forall i | 0 <= i < |items|
      ensures 0.0 <= Layout(items, selectedIndex)[i].angle < 360.0
    {
      AngleInTurn(items, selectedIndex, i);
    }
    forall i, j | 0 <= i < j < |items|
      ensures Layout(items, selectedIndex)[i].angle < Layout(items, selectedIndex)[j].angle
    {
      AngleIncreasing(items, selectedIndex, i, j);
    }
  }

  /** `turns` full turns, in degrees. */
  function Turns(turns: int): real {
    360.0 * (turns as real)
  }

  /** An angle that is a whole number of turns points straight ahead. */
  predicate WholeTurns(angle: real) {
    angle == Turns((angle / 360.0).Floor)
  }

  /** Any whole number of turns is recognised as such. */
  lemma TurnsAreWhole(turns: int)
    ensures WholeTurns(Turns(turns))
  {
    assert Turns(turns) / 360.0 == turns as real;
  }

  /** With the ring turned by `rotation`, the highlighted item points straight at the viewer. */
  predicate FacesFront(items: seq<PhotoItem>, selectedIndex: int, rotation: real) {
    0 <= selectedIndex < |items| && WholeTurns(Layout(items, selectedIndex)[selectedIndex].angle + rotation)
  }
}
