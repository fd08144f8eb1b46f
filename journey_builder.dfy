/**
 * `Journey.JourneyBuilder`: the result builder that turns the statements of
 * a journey into a list of steps, each remembering the source location of
 * its declaration. Views are a type parameter.
 */
module JourneyBuilder {
  import opened Wrappers
  import opened StepIdentifier
  import opened ResultBuilder

  /** `StepsArrayWrapper.Element`: a view and where it was declared. */
  datatype Element<V> = Element(view: V, sourceMetadata: SourceLocation)

  /** `StepsArrayWrapper` */
  datatype StepsArrayWrapper<V> = StepsArrayWrapper(elements: seq<Element<V>>)

  /** `buildExpression(_:_:_:_:)`: one step, stamped with the caller's file, line and column. */
  function BuildExpression<V>(view: V, fileId: string, line: nat, column: nat): (r: seq<Element<V>>)
    ensures |r| == 1 && r[0].view == view
    ensures r[0].sourceMetadata.fileID == fileId && r[0].sourceMetadata.line == line && r[0].sourceMetadata.column == column
  {
    [Element(view, SourceLocation(fileId, line, column))]
  }

  /** `buildBlock(_:)`: the children's steps, in order. */
  function BuildBlock<V>(children: seq<seq<Element<V>>>): (r: seq<Element<V>>)
    ensures |r| == TotalLength(children)
  {
    Flatten(children)
  }

  /** `buildOptional(_:)`: an absent branch contributes no step. */
  function BuildOptional<V>(elements: Option<seq<Element<V>>>): (r: seq<Element<V>>)
    ensures elements.None? ==> r == []
    ensures elements.Some? ==> r == elements.value
  {
    elements.GetOr([])
  }

  /** `buildEither(first:)` */
  function BuildEitherFirst<V>(first: seq<Element<V>>): seq<Element<V>> {
    first
  }

  /** `buildEither(second:)` */
  function BuildEitherSecond<V>(second: seq<Element<V>>): seq<Element<V>> {
    second
  }

  /** `buildLimitedAvailability(_:)` */
  function BuildLimitedAvailability<V>(elements: seq<Element<V>>): seq<Element<V>> {
    elements
  }

  /** `buildArray(_:)`: `for` loops are not supported; the call stops with `fatalError("Unavailable")`. */
  function BuildArray<V>(components: seq<seq<Element<V>>>): (r: Result<seq<Element<V>>, string>)
    ensures r.Failure? && r.error == "Unavailable"
  {
    Failure("Unavailable")
  }

  /** `buildFinalResult(_:)`: the steps, wrapped. */
  function BuildFinalResult<V>(elements: seq<Element<V>>): (r: StepsArrayWrapper<V>)
    ensures r.elements == elements
  {
    StepsArrayWrapper(elements)
  }

  /** `Element ==`: file, line and column agree; the view is not compared. */
  predicate ElementEquals<V>(l: Element<V>, r: Element<V>) {
    && l.sourceMetadata.fileID == r.sourceMetadata.fileID
    && l.sourceMetadata.line == r.sourceMetadata.line
    && l.sourceMetadata.column == r.sourceMetadata.column
  }

  /** `StepsArrayWrapper ==`: array equality, i.e. same length and `Element ==` position by position. */
  predicate WrapperEquals<V>(l: StepsArrayWrapper<V>, r: StepsArrayWrapper<V>) {
    |l.elements| == |r.elements| &&
    forall i | 0 <= i < |l.elements| :: ElementEquals(l.elements[i], r.elements[i])
  }

  /** The declaration sites of a list of steps, in order. */
  function Locations<V>(elements: seq<Element<V>>): (r: seq<SourceLocation>)
    ensures |r| == |elements|
    ensures forall i | 0 <= i < |elements| :: r[i] == elements[i].sourceMetadata
  {
    seq(|elements|, i requires 0 <= i < |elements| => elements[i].sourceMetadata)
  }

  /** The either, limited-availability and final-result builders pass their steps through unchanged. */
  lemma PassThroughBuilders<V>(elements: seq<Element<V>>)
    ensures BuildEitherFirst(elements) == elements
    ensures BuildEitherSecond(elements) == elements
    ensures BuildLimitedAvailability(elements) == elements
    ensures BuildFinalResult(elements).elements == elements
  {
  }

  /** A block keeps every child's steps in order: step `j` of child `i` follows all earlier children's steps. */
  lemma BlockPreservesOrder<V>(children: seq<seq<Element<V>>>, i: nat, j: nat)
    requires i < |children| && j < |children[i]|
    ensures TotalLength(children[..i]) + j < |BuildBlock(children)|
    ensures BuildBlock(children)[TotalLength(children[..i]) + j] == children[i][j]
  {
    FlattenIndex(children, i, j);
  }

  /** A block of two partial results is their concatenation. */
  lemma BlockOfTwo<V>(a: seq<Element<V>>, b: seq<Element<V>>)
    ensures BuildBlock([a, b]) == a + b
  {
    assert [a, b] == [a] + [b];
    FlattenAppend([a], [b]);
    FlattenSingleton(a);
    FlattenSingleton(b);
  }

  /** An `if` without `else` whose condition is false contributes nothing to the enclosing block. */
  lemma AbsentOptionalVanishes<V>(before: seq<seq<Element<V>>>, after: seq<seq<Element<V>>>)
    ensures BuildBlock(before + [BuildOptional(None)] + after) == BuildBlock(before + after)
  {
    FlattenDropsEmpty(before, after);
  }

  /** `Element ==` is equality of declaration sites, so it is an equivalence that ignores the view. */
  lemma ElementEqualityIsLocation<V>(l: Element<V>, r: Element<V>, v: V)
    ensures ElementEquals(l, r) <==> l.sourceMetadata == r.sourceMetadata
    ensures ElementEquals(l, l)
    ensures ElementEquals(l, r) ==> ElementEquals(r, l)
    ensures ElementEquals(l, Element(v, l.sourceMetadata))
  {
  }

  /** Two wrappers are equal exactly when they list the same declaration sites in the same order. */
  lemma WrapperEqualityIsLocations<V>(l: StepsArrayWrapper<V>, r: StepsArrayWrapper<V>)
    ensures WrapperEquals(l, r) <==> Locations(l.elements) == Locations(r.elements)
  {
    if Locations(l.elements) == Locations(r.elements) {
      forall i | 0 <= i < |l.elements| ensures ElementEquals(l.elements[i], r.elements[i]) {
        assert Locations(l.elements)[i] == Locations(r.elements)[i];
      }
    }
  }
}
