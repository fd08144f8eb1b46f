/**
 * Identity of a navigation step (`NavigationStepIdentifier`).
 *
 * A step is identified by its kind (its declaration site, or an explicit
 * `Hashable` id), the type of its view and, for steps declared in a result
 * builder, the source location of the declaration. Runtime types are
 * modelled as tokens naming the type; an `any Hashable` value as its dynamic
 * type plus a canonical payload within that type.
 */
module StepIdentifier {
  import opened Wrappers

  /** The token `type(of:)` / `ObjectIdentifier` yields for a runtime type. */
  datatype TypeToken = TypeToken(name: string)

  /** An `any Hashable` value: its dynamic type and its value within that type. */
  datatype HashableValue = HashableValue(dynamicType: TypeToken, payload: string)

  /** `(fileID: StaticString, line: UInt, column: UInt)` */
  datatype SourceLocation = SourceLocation(fileID: string, line: nat, column: nat)

  /** `NavigationStepIdentifier.Kind` */
  datatype Kind = ViewTypeAndSourceLocation | Identifiable(id: HashableValue)

  /** `NavigationStepIdentifier` */
  datatype Identifier = Identifier(kind: Kind, viewType: TypeToken, sourceMetadata: Option<SourceLocation>)

  /**
   * What the identifier initialiser reads from a step element
   * (`any NavigationStepIdentifiableView`): the view, the type of the view,
   * its source location, and the id the view exposes when it conforms to
   * `NavigationStepIdentifiable` (set by `navigationStepIdentifier(_:)`) or
   * to `Identifiable`.
   */
  datatype StepElement<V> = StepElement(
    view: V,
    viewType: TypeToken,
    sourceMetadata: Option<SourceLocation>,
    stepIdentifiableId: Option<HashableValue>,
    identifiableId: Option<HashableValue>)

  /** A step is custom (pushed at runtime) when it carries no source location. */
  predicate IsCustom(id: Identifier) {
    id.sourceMetadata.None?
  }

  /**
   * `Hashable.equals(_:)`, for values whose dynamic types are final: the
   * cast `other as? Self` succeeds exactly when both values have the same
   * dynamic type, and then the payloads are compared. A subclass instance
   * of a non-final class type, which the cast also accepts, is not modelled.
   */
  predicate HashableEquals(l: HashableValue, r: HashableValue) {
    if l.dynamicType == r.dynamicType then l.payload == r.payload else false
  }

  /** `Kind ==` */
  predicate KindEquals(l: Kind, r: Kind) {
    match (l, r)
    case (ViewTypeAndSourceLocation, ViewTypeAndSourceLocation) => true
    case (Identifiable(a), Identifiable(b)) => HashableEquals(a, b)
    case _ => false
  }

  /** `NavigationStepIdentifier ==` */
  predicate Equals(l: Identifier, r: Identifier) {
    if !KindEquals(l.kind, r.kind) || l.viewType != r.viewType then false
    else
      match (l.sourceMetadata, r.sourceMetadata)
      case (Some(a), Some(b)) => a.fileID == b.fileID && a.line == b.line && a.column == b.column
      case (None, None) => true
      case _ => false
  }

  /** What `hash(into:)` feeds the hasher, one entry per `combine`. */
  datatype HashInput =
    | TypeInput(token: TypeToken)
    | FileInput(fileID: string)
    | LineInput(line: nat)
    | ColumnInput(column: nat)
    | ValueInput(value: HashableValue)

  /** The sequence of values `hash(into:)` combines, in order. */
  function HashInputs(id: Identifier): seq<HashInput> {
    [TypeInput(id.viewType)] +
    match id.kind
    case ViewTypeAndSourceLocation =>
      (match id.sourceMetadata
       case Some(loc) => [FileInput(loc.fileID), LineInput(loc.line), ColumnInput(loc.column)]
       case None => [])
    case Identifiable(v) => [TypeInput(v.dynamicType), ValueInput(v)]
  }

  /** `hashValue` for a given hasher, modelled as any function of the combined inputs. */
  function Hash(id: Identifier, hasher: seq<HashInput> -> int): int {
    hasher(HashInputs(id))
  }

  /**
   * `init(element:)`: view type and source location are copied; the kind is
   * the `NavigationStepIdentifiable` id if there is one, else the
   * `Identifiable` id, else the declaration site.
   */
  function FromElement<V>(e: StepElement<V>): (id: Identifier)
    ensures id.viewType == e.viewType && id.sourceMetadata == e.sourceMetadata
    ensures e.stepIdentifiableId.Some? ==> id.kind == Identifiable(e.stepIdentifiableId.value)
    ensures e.stepIdentifiableId.None? && e.identifiableId.Some? ==> id.kind == Identifiable(e.identifiableId.value)
    ensures e.stepIdentifiableId.None? && e.identifiableId.None? ==> id.kind == ViewTypeAndSourceLocation
  {
    var kind :=
      if e.stepIdentifiableId.Some? then Identifiable(e.stepIdentifiableId.value)
      else if e.identifiableId.Some? then Identifiable(e.identifiableId.value)
      else ViewTypeAndSourceLocation;
    Identifier(kind, e.viewType, e.sourceMetadata)
  }

  /** `isCustom` holds exactly for steps created without a source location. */
  lemma CustomIffNoSourceLocation<V>(e: StepElement<V>)
    ensures IsCustom(FromElement(e)) <==> e.sourceMetadata.None?
  {
  }

  /**
   * `Kind ==` holds for two declaration-site kinds, for two ids of the same
   * dynamic type with equal values, and never for mixed kinds.
   */
  lemma KindEqualsCases(l: Kind, r: Kind)
    ensures l.ViewTypeAndSourceLocation? && r.ViewTypeAndSourceLocation? ==> KindEquals(l, r)
    ensures l.Identifiable? && r.Identifiable? ==>
      (KindEquals(l, r) <==> l.id.dynamicType == r.id.dynamicType && l.id.payload == r.id.payload)
    ensures l.ViewTypeAndSourceLocation? != r.ViewTypeAndSourceLocation? ==> !KindEquals(l, r)
  {
  }

  /**
   * The custom `==` is exactly equality of kind, view type and source
   * location, i.e. structural equality of the model; this is what lets
   * sequences, sets and maps of identifiers use Dafny's own equality.
   */
  lemma EqualsIsStructural(l: Identifier, r: Identifier)
    ensures Equals(l, r) <==> l == r
  {
  }

  /** `==` is an equivalence relation. */
  lemma EqualsIsEquivalence(a: Identifier, b: Identifier, c: Identifier)
    ensures Equals(a, a)
    ensures Equals(a, b) ==> Equals(b, a)
    ensures Equals(a, b) && Equals(b, c) ==> Equals(a, c)
  {
  }

  /** Equal identifiers feed the hasher the same values, so their hashes agree for every hasher. */
  lemma {:induction false} HashConsistentWithEquals(l: Identifier, r: Identifier, hasher: seq<HashInput> -> int)
    requires Equals(l, r)
    ensures HashInputs(l) == HashInputs(r)
    ensures Hash(l, hasher) == Hash(r, hasher)
  {
    EqualsIsStructural(l, r);
  }

  /**
   * An explicit id does not replace the declaration site: two steps with the
   * same explicit id and view type but different source locations are
   * different steps, even though they always hash alike.
   */
  lemma ExplicitIdDoesNotOverrideLocation<V>(a: StepElement<V>, b: StepElement<V>, hasher: seq<HashInput> -> int)
    requires a.stepIdentifiableId.Some? && a.stepIdentifiableId == b.stepIdentifiableId
    requires a.viewType == b.viewType
    requires a.sourceMetadata.Some? && b.sourceMetadata.Some? && a.sourceMetadata != b.sourceMetadata
    ensures !Equals(FromElement(a), FromElement(b))
    ensures Hash(FromElement(a), hasher) == Hash(FromElement(b), hasher)
  {
  }

  /** Two declaration-site steps are equal exactly when view type and source location agree. */
  lemma DeclarationSiteIdentity<V>(a: StepElement<V>, b: StepElement<V>)
    requires a.stepIdentifiableId.None? && a.identifiableId.None?
    requires b.stepIdentifiableId.None? && b.identifiableId.None?
    ensures Equals(FromElement(a), FromElement(b)) <==>
      a.viewType == b.viewType && a.sourceMetadata == b.sourceMetadata
  {
  }
}
