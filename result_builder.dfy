/**
 * What the step builders have in common: a block is the concatenation of its
 * children's partial results (`children.flatMap { $0 }`), in order.
 */
module ResultBuilder {

  /** The sum of the children's lengths. */
  function TotalLength<T>(children: seq<seq<T>>): nat {
    if children == [] then 0 else |children[0]| + TotalLength(children[1..])
  }

  /** `children.flatMap { $0 }` */
  function Flatten<T>(children: seq<seq<T>>): (r: seq<T>)
    ensures |r| == TotalLength(children)
  {
    if children == [] then [] else children[0] + Flatten(children[1..])
  }

  /** Flattening distributes over concatenation of the children lists. */
  lemma {:induction false} FlattenAppend<T>(a: seq<seq<T>>, b: seq<seq<T>>)
    ensures Flatten(a + b) == Flatten(a) + Flatten(b)
  {
    if a != [] {
      assert (a + b)[1..] == a[1..] + b;
      FlattenAppend(a[1..], b);
    } else {
      assert a + b == b;
    }
  }

  /** The total length distributes over concatenation as well. */
  lemma TotalLengthAppend<T>(a: seq<seq<T>>, b: seq<seq<T>>)
    ensures TotalLength(a + b) == TotalLength(a) + TotalLength(b)
  {
    FlattenAppend(a, b);
  }

  /** A single child is its own flattening. */
  lemma FlattenSingleton<T>(x: seq<T>)
    ensures Flatten([x]) == x
  {
    assert [x][1..] == [];
  }

  /** An empty child (an `if` without `else` whose condition is false) leaves no trace. */
  lemma FlattenDropsEmpty<T>(a: seq<seq<T>>, b: seq<seq<T>>)
    ensures Flatten(a + [[]] + b) == Flatten(a + b)
  {
    FlattenAppend(a + [[]], b);
    FlattenAppend(a, [[]]);
    FlattenSingleton<T>([]);
    FlattenAppend(a, b);
  }

  /**
   * Order is preserved: element `j` of child `i` sits at the combined length
   * of the children before it, plus `j`.
   */
  lemma {:induction false} FlattenIndex<T>(children: seq<seq<T>>, i: nat, j: nat)
    requires i < |children| && j < |children[i]|
    ensures TotalLength(children[..i]) + j < |Flatten(children)|
    ensures Flatten(children)[TotalLength(children[..i]) + j] == children[i][j]
  {
    assert children == children[..i] + children[i..];
    FlattenAppend(children[..i], children[i..]);
    assert children[i..][0] == children[i];
  }

  /** An element occurs in the block exactly when it occurs in one of the children. */
  lemma {:induction false} FlattenMembership<T>(children: seq<seq<T>>, x: T)
    ensures x in Flatten(children) <==> exists i | 0 <= i < |children| :: x in children[i]
  {
    if children != [] {
      FlattenMembership(children[1..], x);
      if x in Flatten(children[1..]) {
        var i :| 0 <= i < |children[1..]| && x in children[1..][i];
        assert x in children[i + 1];
      }
      if exists i | 0 <= i < |children| :: x in children[i] {
        var i :| 0 <= i < |children| && x in children[i];
        if i > 0 {
          assert x in children[1..][i - 1];
        }
      }
    }
  }
}
