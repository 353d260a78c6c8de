/** A search with an explicit stack: the order in which frames are popped, for any expansion. */
module StackSearch {
  import opened Ordering

  ghost function Top<F>(stack: seq<F>): F
    requires stack != []
  {
    stack[|stack| - 1]
  }

  ghost function Below<F>(stack: seq<F>): seq<F>
    requires stack != []
  {
    stack[..|stack| - 1]
  }

  lemma BelowAppend<F>(later: seq<F>, stack: seq<F>)
    requires stack != []
    ensures Top(later + stack) == Top(stack)
    ensures Below(later + stack) == later + Below(stack)
  {
  }

  /** `todo` lists the frames popped, in order, from `stack` until it is empty. */
  ghost predicate Pops<F>(expand: F -> seq<F>, stack: seq<F>, todo: seq<F>)
    decreases |todo|
  {
    if todo == [] then stack == []
    else stack != [] && todo[0] == Top(stack) && Pops(expand, Below(stack) + expand(todo[0]), todo[1..])
  }

  lemma PopsStep<F>(expand: F -> seq<F>, stack: seq<F>, f: F, todo: seq<F>)
    ensures Pops(expand, stack + [f], [f] + todo) <==> Pops(expand, stack + expand(f), todo)
  {
    assert Below(stack + [f]) == stack;
    assert ([f] + todo)[1..] == todo;
  }

  /** The first pop: `todo` is not empty and what follows is a run again. */
  lemma PopsFirst<F>(expand: F -> seq<F>, stack: seq<F>, todo: seq<F>)
    requires Pops(expand, stack, todo) && stack != []
    ensures todo != [] && todo[0] == Top(stack) && todo == [todo[0]] + todo[1..]
    ensures Pops(expand, Below(stack) + expand(Top(stack)), todo[1..])
  {
  }

  lemma {:induction false} PopsConcat<F>(expand: F -> seq<F>, below: seq<F>, above: seq<F>, first: seq<F>,
                                         second: seq<F>)
    requires Pops(expand, above, first) && Pops(expand, below, second)
    ensures Pops(expand, below + above, first + second)
    decreases |first|
  {
    if above == [] {
      assert below + above == below && first + second == second;
    } else {
      PopsFirst(expand, above, first);
      var f, rest, pushed := Top(above), Below(above), expand(Top(above));
      PopsConcat(expand, below, rest + pushed, first[1..], second);
      AppendAssociative(below, rest, pushed);
      PopsStep(expand, below + rest, f, first[1..] + second);
      AppendAssociative(below, rest, [f]);
      SplitLast(above);
      AppendAssociative([f], first[1..], second);
    }
  }

  lemma {:induction false} PopsUnique<F>(expand: F -> seq<F>, stack: seq<F>, a: seq<F>, b: seq<F>)
    requires Pops(expand, stack, a) && Pops(expand, stack, b)
    ensures a == b
    decreases |a|
  {
    if a != [] {
      PopsUnique(expand, Below(stack) + expand(a[0]), a[1..], b[1..]);
    }
  }

  // ----- Termination ------------------------------------------------------------------------

  /** Every frame pushed ranks below the frame it is pushed for. */
  ghost predicate Shrinks<F(!new)>(expand: F -> seq<F>, rank: F -> nat) {
    forall f, g :: g in expand(f) ==> rank(g) < rank(f)
  }

  /** One more than the greatest rank on a stack. */
  ghost function Height<F>(rank: F -> nat, stack: seq<F>): (h: nat)
    ensures forall i :: 0 <= i < |stack| ==> rank(stack[i]) < h
    ensures h == 0 || exists i :: 0 <= i < |stack| && rank(stack[i]) + 1 == h
  {
    if stack == [] then 0
    else if Height(rank, Below(stack)) <= rank(Top(stack)) then rank(Top(stack)) + 1
    else Height(rank, Below(stack))
  }

  lemma HeightSteps<F(!new)>(expand: F -> seq<F>, rank: F -> nat, stack: seq<F>)
    requires Shrinks(expand, rank) && stack != []
    ensures Height(rank, expand(Top(stack))) < Height(rank, stack)
    ensures Height(rank, Below(stack)) <= Height(rank, stack)
  {
    var pushed := expand(Top(stack));
    assert Top(stack) == stack[|stack| - 1];
    forall i | 0 <= i < |pushed| ensures rank(pushed[i]) < rank(Top(stack)) { assert pushed[i] in pushed; }
  }

  /** From every stack there is a finite run. */
  lemma {:induction false} PopsExist<F(!new)>(expand: F -> seq<F>, rank: F -> nat, stack: seq<F>) returns (todo: seq<F>)
    requires Shrinks(expand, rank)
    ensures Pops(expand, stack, todo)
    decreases Height(rank, stack), |stack|
  {
    if stack == [] {
      todo := [];
    } else {
      var f := Top(stack);
      HeightSteps(expand, rank, stack);
      var first := PopsExist(expand, rank, expand(f));
      var second := PopsExist(expand, rank, Below(stack));
      PopsConcat(expand, Below(stack), expand(f), first, second);
      todo := [f] + (first + second);
      assert todo[1..] == first + second;
    }
  }
}
