/**
 What eating leaves on the board: every food on the head's cell goes, every
 other food stays where it was, in the same order.
 */
module Food {
  import opened Grid

  /** The foods of `s` that are not on cell `head`, in their original order. */
  function Uneaten(s: seq<Position>, head: Position): (r: seq<Position>)
    ensures head !in r
    ensures forall q :: q in r ==> q in s
  {
    if s == [] then []
    else
      var init, last := s[..|s| - 1], s[|s| - 1];
      assert s == init + [last];
      Uneaten(init, head) + (if last == head then [] else [last])
  }

  /**
   Exactly the foods on the head's cell are removed: every other cell keeps
   as many foods as it had, and the count removed is the count on the head's cell.
   */
  lemma {:induction false} UneatenCounts(s: seq<Position>, head: Position)
    ensures forall q :: q != head ==> multiset(Uneaten(s, head))[q] == multiset(s)[q]
    ensures |Uneaten(s, head)| + multiset(s)[head] == |s|
  {
    if s != [] {
      var init, last := s[..|s| - 1], s[|s| - 1];
      assert s == init + [last];
      UneatenCounts(init, head);
    }
  }

  /** Scanning one more food extends the result by that food unless it lies on the head's cell. */
  lemma UneatenSnoc(s: seq<Position>, x: Position, head: Position)
    ensures Uneaten(s + [x], head) == Uneaten(s, head) + (if x == head then [] else [x])
  {
    assert (s + [x])[..|s|] == s;
  }

  /** The same fact for one more food of a scan from the front. */
  lemma UneatenPrefix(s: seq<Position>, i: nat, head: Position)
    requires i < |s|
    ensures Uneaten(s[..i + 1], head) == Uneaten(s[..i], head) + (if s[i] == head then [] else [s[i]])
    ensures multiset(s[..i + 1])[head] == multiset(s[..i])[head] + (if s[i] == head then 1 else 0)
  {
    assert s[..i + 1] == s[..i] + [s[i]];
    UneatenSnoc(s[..i], s[i], head);
  }

  /** Eating is idempotent: a second pass on the same cell removes nothing more. */
  lemma {:induction false} UneatenIdempotent(s: seq<Position>, head: Position)
    ensures Uneaten(Uneaten(s, head), head) == Uneaten(s, head)
  {
    UneatenNoMatch(Uneaten(s, head), head);
  }

  /** A board with no food on the head's cell is left exactly as it was. */
  lemma {:induction false} UneatenNoMatch(s: seq<Position>, head: Position)
    requires head !in s
    ensures Uneaten(s, head) == s
  {
    if s != [] {
      var init := s[..|s| - 1];
      assert s == init + [s[|s| - 1]];
      UneatenNoMatch(init, head);
    }
  }

  /** The number of foods eaten is the number that were on the head's cell. */
  lemma EatenCount(s: seq<Position>, head: Position)
    ensures |s| - |Uneaten(s, head)| == multiset(s)[head]
    ensures multiset(s)[head] == 0 <==> Uneaten(s, head) == s
  {
    UneatenCounts(s, head);
    if multiset(s)[head] == 0 {
      UneatenNoMatch(s, head);
    }
  }
}
