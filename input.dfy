/**
 The input resolver: which arrow keys are held this frame, the heading they
 request, and the heading the snake accepts.
 */
module Input {
  import opened Grid

  /** The four arrow keys, each held or not during the current frame. */
  datatype Keys = Keys(left: bool, right: bool, down: bool, up: bool)

  const NoKeys := Keys(false, false, false, false)

  predicate Held(keys: Keys, d: Direction) {
    match d
    case Left => keys.left
    case Right => keys.right
    case Down => keys.down
    case Up => keys.up
  }

  predicate NoneHeld(keys: Keys) {
    !keys.left && !keys.right && !keys.down && !keys.up
  }

  /** Key precedence: Left beats Right, Right beats Down, Down beats Up. */
  function Rank(d: Direction): nat {
    match d
    case Left => 0
    case Right => 1
    case Down => 2
    case Up => 3
  }

  /**
   The requested heading: the held key of best precedence, or the current
   heading when no key is held.
   */
  function Selected(keys: Keys, current: Direction): (r: Direction)
    ensures NoneHeld(keys) ==> r == current
    ensures !NoneHeld(keys) ==> Held(keys, r)
    ensures forall d: Direction :: Held(keys, d) ==> Rank(r) <= Rank(d)
  {
    if keys.left then Left
    else if keys.right then Right
    else if keys.down then Down
    else if keys.up then Up
    else current
  }

  /**
   The heading after one frame of input: the request wins unless it is the
   reverse of the current heading, in which case the heading stays as it was.
   */
  function Resolve(current: Direction, keys: Keys): (r: Direction)
    ensures r != current.Opposite()
    ensures r == current || r == Selected(keys, current)
    ensures Selected(keys, current) != current.Opposite() ==> r == Selected(keys, current)
    ensures NoneHeld(keys) ==> r == current
  {
    var dir := Selected(keys, current);
    if dir != current.Opposite() then dir else current
  }

  /** A request for the reverse heading leaves the heading of this frame unchanged. */
  lemma ReversalRejected(current: Direction, keys: Keys)
    requires Selected(keys, current) == current.Opposite()
    ensures Resolve(current, keys) == current
  {
  }

  /** The precedence, pairwise: a held key of better rank hides every other key. */
  lemma PrecedenceWins(keys: Keys, d: Direction, e: Direction, current: Direction)
    requires Held(keys, d) && Held(keys, e) && Rank(d) < Rank(e)
    ensures Selected(keys, current) != e
  {
  }
}
