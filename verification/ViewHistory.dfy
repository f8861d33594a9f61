/**
  The navigation history (src/app.rs): a list of frames and a cursor, bounded by a capacity. It refines a
  zipper: the frames to go back to, the current one, and those to go forward to.
 */
module ViewHistory {
  import opened Wrappers

  const HISTORY_CAPACITY: nat := 100

  datatype Zipper<F> = Zipper(back: seq<F>, current: F, ahead: seq<F>) {
    function Frames(): seq<F> { back + [current] + ahead }
  }

  datatype Move<F> = Append(frame: F) | Backward | Forward

  /** Appending the current frame again changes nothing; another one takes the place of the frames ahead. */
  function Appended<F(==)>(z: Zipper<F>, frame: F, capacity: nat): Zipper<F> {
    if frame == z.current then z
    else
      var back := z.back + [z.current];
      Zipper(if |back| + 1 > capacity then back[1..] else back, frame, [])
  }

  function Backed<F>(z: Zipper<F>): Zipper<F> {
    if z.back == [] then z
    else Zipper(z.back[..|z.back| - 1], z.back[|z.back| - 1], [z.current] + z.ahead)
  }

  function Forwarded<F>(z: Zipper<F>): Zipper<F> {
    if z.ahead == [] then z
    else Zipper(z.back + [z.current], z.ahead[0], z.ahead[1..])
  }

  function Moved<F(==)>(z: Zipper<F>, move: Move<F>, capacity: nat): Zipper<F> {
    match move
    case Append(frame) => Appended(z, frame, capacity)
    case Backward => Backed(z)
    case Forward => Forwarded(z)
  }

  function MovedAll<F(==)>(z: Zipper<F>, moves: seq<Move<F>>, capacity: nat): Zipper<F>
    decreases |moves|
  {
    if moves == [] then z else MovedAll(Moved(z, moves[0], capacity), moves[1..], capacity)
  }

  class ViewHistory<F(==)> {
    var frames: seq<F>
    var cursor: nat
    const capacity: nat := HISTORY_CAPACITY

    predicate Valid()
      reads this
    {
      cursor < |frames| <= capacity
    }

    function View(): Zipper<F>
      requires Valid()
      reads this
    {
      Zipper(frames[..cursor], frames[cursor], frames[cursor + 1..])
    }

    constructor (frame: F)
      ensures Valid() && View() == Zipper([], frame, [])
    {
      frames, cursor := [frame], 0;
    }

    method ReplaceCurrent(frame: F)
      requires Valid()
      modifies this`frames
      ensures Valid() && View() == old(View()).(current := frame)
    {
      frames := frames[cursor := frame];
    }

    method Append(frame: F) returns (added: bool)
      requires Valid()
      modifies this
      ensures Valid() && View() == Appended(old(View()), frame, capacity)
      ensures added == (frame != old(View()).current)
    {
      if frames[cursor] == frame {
        return false;
      }
      frames := frames[..cursor + 1];
      frames := frames + [frame];
      if |frames| > capacity {
        frames := frames[1..];
      }
      cursor := |frames| - 1;
      return true;
    }

    method Backward() returns (frame: Option<F>)
      requires Valid()
      modifies this`cursor
      ensures Valid() && View() == Backed(old(View()))
      ensures frame == if old(View()).back == [] then None else Some(View().current)
    {
      if cursor == 0 {
        return None;
      }
      cursor := cursor - 1;
      return Some(frames[cursor]);
    }

    method Forward() returns (frame: Option<F>)
      requires Valid()
      modifies this`cursor
      ensures Valid() && View() == Forwarded(old(View()))
      ensures frame == if old(View()).ahead == [] then None else Some(View().current)
    {
      if cursor + 1 >= |frames| {
        return None;
      }
      cursor := cursor + 1;
      return Some(frames[cursor]);
    }

    /** Any run of moves: the history refines the zipper throughout. */
    method MoveAll(moves: seq<Move<F>>)
      requires Valid()
      modifies this
      ensures Valid() && View() == MovedAll(old(View()), moves, capacity)
    {
      var i := 0;
      while i < |moves|
        invariant i <= |moves| && Valid()
        invariant MovedAll(View(), moves[i..], capacity) == MovedAll(old(View()), moves, capacity)
      {
        assert moves[i..][0] == moves[i] && moves[i..][1..] == moves[i + 1..];
        match moves[i] {
          case Append(frame) => var _ := Append(frame);
          case Backward => var _ := Backward();
          case Forward => var _ := Forward();
        }
        i := i + 1;
      }
    }
  }

  // ----- what moves keep and undo

  /** No two neighbouring frames are equal. */
  predicate NeighboursDiffer<F(==)>(frames: seq<F>) {
    forall i :: 0 <= i < |frames| - 1 ==> frames[i] != frames[i + 1]
  }

  /** Going back and forward only moves the cursor, and each undoes the other. */
  lemma BackAndForwardCancel<F>(z: Zipper<F>)
    ensures Backed(z).Frames() == z.Frames() == Forwarded(z).Frames()
    ensures z.back != [] ==> Forwarded(Backed(z)) == z
    ensures z.ahead != [] ==> Backed(Forwarded(z)) == z
  {
    if z.back != [] {
      var n := |z.back| - 1;
      assert z.back == z.back[..n] + [z.back[n]];
      assert Backed(z).Frames() == z.Frames();
    }
    if z.ahead != [] {
      assert z.ahead == [z.ahead[0]] + z.ahead[1..];
      assert Forwarded(z).Frames() == z.Frames();
    }
  }

  lemma {:induction false} MovesCompose<F>(z: Zipper<F>, first: seq<Move<F>>, second: seq<Move<F>>, capacity: nat)
    ensures MovedAll(z, first + second, capacity) == MovedAll(MovedAll(z, first, capacity), second, capacity)
    decreases |first|
  {
    if first == [] {
      assert first + second == second;
    } else {
      MovesCompose(Moved(z, first[0], capacity), first[1..], second, capacity);
      assert (first + second)[1..] == first[1..] + second;
    }
  }

  /** As many steps forward as were taken back return to the start. */
  lemma {:induction false} ManyStepsCancel<F>(z: Zipper<F>, n: nat, capacity: nat)
    requires n <= |z.back|
    ensures MovedAll(z, seq(n, _ => Backward) + seq(n, _ => Forward), capacity) == z
    decreases n
  {
    var backs, forwards := seq(n, _ => Move<F>.Backward), seq(n, _ => Move<F>.Forward);
    if n == 0 {
      assert backs + forwards == [];
    } else {
      var fewer := seq(n - 1, _ => Move<F>.Backward) + seq(n - 1, _ => Move<F>.Forward);
      ManyStepsCancel(Backed(z), n - 1, capacity);
      BackAndForwardCancel(z);
      assert backs + forwards == [Backward] + fewer + [Forward];
      assert (backs + forwards)[1..] == fewer + [Forward];
      MovesCompose(Backed(z), fewer, [Forward], capacity);
    }
  }

  /** A new frame discards exactly the frames ahead, and the oldest one only when there would be too many. */
  lemma AppendDiscardsExactly<F>(z: Zipper<F>, frame: F, capacity: nat)
    requires frame != z.current && |z.Frames()| <= capacity
    ensures var kept := z.back + [z.current] + [frame];
            var after := Appended(z, frame, capacity).Frames();
            && after == (if |kept| > capacity then kept[1..] else kept)
            && |after| <= capacity
    ensures Appended(z, frame, capacity).current == frame
    ensures Backed(Appended(z, frame, capacity)).current == if capacity == 1 then frame else z.current
  {
  }

  lemma MoveKeepsNeighbours<F>(z: Zipper<F>, move: Move<F>, capacity: nat)
    requires NeighboursDiffer(z.Frames()) && |z.Frames()| <= capacity
    ensures NeighboursDiffer(Moved(z, move, capacity).Frames()) && |Moved(z, move, capacity).Frames()| <= capacity
  {
    match move
    case Backward => BackAndForwardCancel(z);
    case Forward => BackAndForwardCancel(z);
    case Append(frame) =>
      if frame != z.current {
        var kept := z.back + [z.current] + [frame];
        AppendDiscardsExactly(z, frame, capacity);
        forall i | 0 <= i < |kept| - 1
          ensures kept[i] != kept[i + 1]
        {
          assert kept[i] == z.Frames()[i];
          if i + 1 < |kept| - 1 { assert kept[i + 1] == z.Frames()[i + 1]; }
        }
      }
  }

  /** Runs of appends and moves from a fresh history stay within capacity and never put equal frames side by side. */
  lemma {:induction false} RunsKeepNeighboursApart<F>(z: Zipper<F>, moves: seq<Move<F>>, capacity: nat)
    requires NeighboursDiffer(z.Frames()) && |z.Frames()| <= capacity
    ensures var after := MovedAll(z, moves, capacity);
            NeighboursDiffer(after.Frames()) && 1 <= |after.Frames()| <= capacity
    decreases |moves|
  {
    if moves != [] {
      MoveKeepsNeighbours(z, moves[0], capacity);
      RunsKeepNeighboursApart(Moved(z, moves[0], capacity), moves[1..], capacity);
    }
  }

  /**
    Replacing the current frame, as leaving a view does, keeps that exactly when the new frame differs from both
    neighbours.
   */
  lemma ReplacingKeepsNeighboursExactly<F>(z: Zipper<F>, frame: F)
    requires NeighboursDiffer(z.Frames())
    ensures NeighboursDiffer(z.(current := frame).Frames()) <==>
              (z.back != [] ==> z.back[|z.back| - 1] != frame) && (z.ahead != [] ==> frame != z.ahead[0])
  {
    var before, after, c := z.Frames(), z.(current := frame).Frames(), |z.back|;
    assert forall i :: 0 <= i < |before| && i != c ==> after[i] == before[i];
    assert after[c] == frame;
    if z.back != [] { assert after[c - 1] == z.back[c - 1]; }
    if z.ahead != [] { assert after[c + 1] == z.ahead[0]; }
    if (z.back != [] ==> z.back[c - 1] != frame) && (z.ahead != [] ==> frame != z.ahead[0]) {
      forall i | 0 <= i < |after| - 1
        ensures after[i] != after[i + 1]
      {
        assert before[i] != before[i + 1];
      }
    }
  }
}
