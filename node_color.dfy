/** The fill colour of a treemap box: five shades of blue, cycling with the depth. */
module NodeColors {

  datatype NodeColor = Blue1 | Blue2 | Blue3 | Blue4 | Blue5

  /** The shade's position, lightest first. */
  function Shade(c: NodeColor): (n: nat)
    ensures n < 5
  {
    match c
    case Blue1 => 0
    case Blue2 => 1
    case Blue3 => 2
    case Blue4 => 3
    case Blue5 => 4
  }

  /**
   * `depth_color`: the shade for a box at `depth`, taken modulo five; the fallback arm
   * after the modulo cannot be reached.
   */
  function DepthColor(depth: nat): (c: NodeColor)
    ensures Shade(c) == depth % 5
  {
    var d := depth % 5;
    if d == 0 then Blue1
    else if d == 1 then Blue2
    else if d == 2 then Blue3
    else if d == 3 then Blue4
    else if d == 4 then Blue5
    else assert false; Blue1
  }

  /** The colour depends on the depth only through its remainder modulo five. */
  lemma DepthColorPeriodic(a: nat, b: nat)
    ensures DepthColor(a) == DepthColor(b) <==> a % 5 == b % 5
  {
    if DepthColor(a) == DepthColor(b) {
      assert Shade(DepthColor(a)) == Shade(DepthColor(b));
    }
  }

  /** A box and a box directly inside it always get different colours. */
  lemma ConsecutiveDiffer(depth: nat)
    ensures DepthColor(depth) != DepthColor(depth + 1)
  {
    DepthColorPeriodic(depth, depth + 1);
  }

  /** Depths zero to four take the shades in order. */
  lemma FirstDepthsInOrder()
    ensures [DepthColor(0), DepthColor(1), DepthColor(2), DepthColor(3), DepthColor(4)]
         == [Blue1, Blue2, Blue3, Blue4, Blue5]
  {
  }
}
