/**
  Insertion can follow a missing pointer. The witness is a run of eleven insertions into an empty
  tree: the rotations store heights that are too low, the left branch degenerates into a list
  unnoticed, and the last insertion then rotates towards a child that is not there.
 */
module InsertionFault {
  import opened AvlTree

  function N(l: Tree<()>, base: int, height: int, r: Tree<()>): Tree<()> {
    Br((), l, base, 1, height, r)
  }

  function L(base: int): Tree<()> {
    N(Nil, base, 1, Nil)
  }

  const KEYS := [20, 21, 8, 5, 4, 10, 13, 17, 19, 2]

  /** Inserting a one-byte block at `base` succeeds and turns `t` into `u`. */
  predicate Grows(t: Tree<()>, base: int, u: Tree<()>) {
    Insert(t, base, 1, ()) == u && !InsertFaults(t, base, 1, ())
  }

  lemma {:induction false} FirstThree()
    ensures Grows(Nil, 20, L(20))
    ensures Grows(L(20), 21, N(Nil, 20, 2, L(21)))
    ensures Grows(N(Nil, 20, 2, L(21)), 8, N(L(8), 20, 2, L(21)))
  {
  }

  lemma {:induction false} Step4()
    ensures Grows(N(L(8), 20, 2, L(21)), 5, N(N(L(5), 8, 2, Nil), 20, 3, L(21)))
  {
  }

  lemma {:induction false} Step5()
    ensures Grows(N(N(L(5), 8, 2, Nil), 20, 3, L(21)), 4, N(N(L(4), 5, 2, L(8)), 20, 3, L(21)))
  {
    assert Grows(L(5), 4, N(L(4), 5, 2, Nil));
    assert Grows(N(L(5), 8, 2, Nil), 4, N(L(4), 5, 2, L(8)));
  }

  lemma {:induction false} Step6()
    ensures Grows(N(N(L(4), 5, 2, L(8)), 20, 3, L(21)),
                  10,
                  N(N(L(4), 5, 1, Nil), 8, 3, N(L(10), 20, 2, L(21))))
  {
    assert Grows(N(L(4), 5, 2, L(8)), 10, N(L(4), 5, 3, N(Nil, 8, 2, L(10))));
  }

  lemma {:induction false} Step7()
    ensures Grows(N(N(L(4), 5, 1, Nil), 8, 3, N(L(10), 20, 2, L(21))),
                  13,
                  N(N(N(L(4), 5, 1, Nil), 8, 1, Nil), 10, 3, N(L(13), 20, 2, L(21))))
  {
  }

  lemma {:induction false} Step8()
    ensures Grows(N(N(N(L(4), 5, 1, Nil), 8, 1, Nil), 10, 3, N(L(13), 20, 2, L(21))),
                  17,
                  N(N(N(N(L(4), 5, 1, Nil), 8, 1, Nil), 10, 1, Nil), 13, 3, N(L(17), 20, 2, L(21))))
  {
  }

  lemma {:induction false} Step9()
    ensures Grows(N(N(N(N(L(4), 5, 1, Nil), 8, 1, Nil), 10, 1, Nil), 13, 3, N(L(17), 20, 2, L(21))),
                  19,
                  N(N(N(N(N(L(4), 5, 1, Nil), 8, 1, Nil), 10, 1, Nil), 13, 1, Nil), 17, 3, N(L(19), 20, 2, L(21))))
  {
  }

  /** The tenth insertion rotates at every node of the degenerate branch. */
  lemma {:induction false} Step10()
    ensures Grows(N(N(N(N(N(L(4), 5, 1, Nil), 8, 1, Nil), 10, 1, Nil), 13, 1, Nil), 17, 3, N(L(19), 20, 2, L(21))),
                  2,
                  N(N(L(2), 4, 2, N(N(N(L(5), 8, 2, Nil), 10, 3, Nil), 13, 4, Nil)), 17, 3, N(L(19), 20, 2, L(21))))
  {
    assert Grows(N(L(4), 5, 1, Nil), 2,
                 N(L(2), 4, 2, L(5)));
    assert Grows(N(N(L(4), 5, 1, Nil), 8, 1, Nil), 2,
                 N(L(2), 4, 2, N(L(5), 8, 2, Nil)));
    assert Grows(N(N(N(L(4), 5, 1, Nil), 8, 1, Nil), 10, 1, Nil), 2,
                 N(L(2), 4, 2, N(N(L(5), 8, 2, Nil), 10, 3, Nil)));
    assert Grows(N(N(N(N(L(4), 5, 1, Nil), 8, 1, Nil), 10, 1, Nil), 13, 1, Nil), 2,
                 N(L(2), 4, 2, N(N(N(L(5), 8, 2, Nil), 10, 3, Nil), 13, 4, Nil)));
  }

  lemma {:induction false} LastFaults()
    ensures InsertFaults(N(N(L(2), 4, 2, N(N(N(L(5), 8, 2, Nil), 10, 3, Nil), 13, 4, Nil)),
                           17, 3, N(L(19), 20, 2, L(21))),
                         15, 1, ())
  {
  }

  /** Ten insertions into an empty tree succeed, and the eleventh follows a missing pointer. */
  lemma {:induction false} ElevenInsertionsFault() returns (t: seq<Tree<()>>)
    ensures |t| == 11 && t[0] == Nil
    ensures forall i :: 0 <= i < 10 ==> Grows(t[i], KEYS[i], t[i + 1])
    ensures InsertFaults(t[10], 15, 1, ())
  {
    hide Grows, Insert, InsertFaults;
    FirstThree(); Step4(); Step5(); Step6(); Step7(); Step8(); Step9(); Step10();
    LastFaults();
    t := [Nil,
          L(20),
          N(Nil, 20, 2, L(21)),
          N(L(8), 20, 2, L(21)),
          N(N(L(5), 8, 2, Nil), 20, 3, L(21)),
          N(N(L(4), 5, 2, L(8)), 20, 3, L(21)),
          N(N(L(4), 5, 1, Nil), 8, 3, N(L(10), 20, 2, L(21))),
          N(N(N(L(4), 5, 1, Nil), 8, 1, Nil), 10, 3, N(L(13), 20, 2, L(21))),
          N(N(N(N(L(4), 5, 1, Nil), 8, 1, Nil), 10, 1, Nil), 13, 3, N(L(17), 20, 2, L(21))),
          N(N(N(N(N(L(4), 5, 1, Nil), 8, 1, Nil), 10, 1, Nil), 13, 1, Nil), 17, 3, N(L(19), 20, 2, L(21))),
          N(N(L(2), 4, 2, N(N(N(L(5), 8, 2, Nil), 10, 3, Nil), 13, 4, Nil)), 17, 3, N(L(19), 20, 2, L(21)))];
    assert KEYS[..] == [20, 21, 8, 5, 4, 10, 13, 17, 19, 2];
  }
}
