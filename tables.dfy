/** The two constant lookup tables of the environment: `action_translator`
    (discrete action to direction) and `level_translator` (tile character to
    the integer the agent observes). */
module Tables {
  import opened Wrappers

  /** One step along an axis of the grid. */
  predicate IsUnitCardinal(v: (int, int)) {
    v == (1, 0) || v == (-1, 0) || v == (0, 1) || v == (0, -1)
  }

  /** `action_translator[action]`; `None` is the KeyError of a missing key. */
  function ActionVector(action: int): (r: Option<(int, int)>)
    ensures r.Some? <==> 0 <= action < 4
    ensures r.Some? ==> IsUnitCardinal(r.value)
  {
    match action
    case 0 => Some((1, 0))
    case 1 => Some((-1, 0))
    case 2 => Some((0, 1))
    case 3 => Some((0, -1))
    case _ => None
  }

  /** Different actions move in different directions. */
  lemma ActionVectorInjective(a: int, b: int)
    requires ActionVector(a).Some? && ActionVector(a) == ActionVector(b)
    ensures a == b
  {
  }

  /** Every one of the four directions is reachable by some action. */
  lemma ActionVectorOnto(v: (int, int))
    requires IsUnitCardinal(v)
    ensures exists a :: 0 <= a < 4 && ActionVector(a) == Some(v)
  {
    if v == (1, 0) {
      assert ActionVector(0) == Some(v);
    } else if v == (-1, 0) {
      assert ActionVector(1) == Some(v);
    } else if v == (0, 1) {
      assert ActionVector(2) == Some(v);
    } else {
      assert ActionVector(3) == Some(v);
    }
  }

  /** The characters `level_translator` has a code for. */
  const TileKeys: set<char> := {'#', '.', '>', '@', '+', 'z', 'v', 'q', ' '}

  /** The code the agent sees for an unexplored cell: `level_translator[" "]`. */
  const Unseen: int := -4

  /** `level_translator[c]`; `None` is the KeyError of a missing key. */
  function TileCode(c: char): (r: Option<int>)
    ensures r.Some? <==> c in TileKeys
    ensures r.Some? ==> -4 <= r.value <= 4
    ensures r == Some(Unseen) <==> c == ' '
  {
    match c
    case '#' => Some(0)
    case '.' => Some(2)
    case '>' => Some(4)
    case '@' => Some(1)
    case '+' => Some(3)
    case 'z' => Some(-2)
    case 'v' => Some(-3)
    case 'q' => Some(-1)
    case ' ' => Some(-4)
    case _ => None
  }

  /** No two tile characters share a code, so the observation loses nothing. */
  lemma TileCodeInjective(c: char, d: char)
    requires TileCode(c).Some? && TileCode(c) == TileCode(d)
    ensures c == d
  {
  }
}
