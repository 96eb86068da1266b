/**
 * `ResourceReference`: a factory for a shared resource, identified by one
 * immutable `Key`, with two pieces of mutable presentation metadata
 * (subresource integrity and cross-origin policy) that are not part of its
 * identity. The closure-backed `LambdaResourceReference` is the `Lambda`
 * variant of `Backing`.
 */
module ResourceReferences {
  import opened Wrappers
  import opened JavaLang
  import opened ResourceKeys
  import opened ResourceExtension

  /** The scope used when only a name is given: `Application.class.getName()`. */
  const APPLICATION_SCOPE: string := "org.apache.wicket.Application"

  /** A non-null `SerializableSupplier<IResource>`, kept as an opaque token. */
  datatype Supplier = Supplier(id: nat)

  /** A `CrossOrigin` policy value, kept as an opaque token. */
  datatype CrossOrigin = CrossOrigin(policy: string)

  /** A `HeaderItem` a reference may depend on, kept as an opaque token. */
  datatype HeaderItem = HeaderItem(id: nat)

  /**
   * How the reference produces its resource: by a subclass's own
   * `getResource()`, or, for a `LambdaResourceReference`, by its supplier.
   */
  datatype Backing = Subclass | Lambda(resourceBuilder: Supplier)

  class ResourceReference {
    /** The identity (`data`); fixed at construction. */
    const key: Key
    const backing: Backing
    var integrity: Option<string>
    var crossOrigin: Option<CrossOrigin>

    /** Construction once the arguments have been checked; metadata starts out null. */
    constructor (key: Key, backing: Backing)
      ensures this.key == key && this.backing == backing
      ensures integrity == None && crossOrigin == None
    {
      this.key := key;
      this.backing := backing;
      integrity := None;
      crossOrigin := None;
    }

    /** `getKey()`: the identity the reference was built with. */
    function GetKey(): (r: Key)
      ensures r == key
    {
      key
    }

    /** `getName()`: the key's name. */
    function GetName(): (r: string)
      ensures r == key.name
    {
      key.name
    }

    /** `getLocale()`: the key's locale, possibly absent. */
    function GetLocale(): (r: Option<Locale>)
      ensures r == key.locale
    {
      key.locale
    }

    /** `getStyle()`: the key's style, possibly absent. */
    function GetStyle(): (r: Option<string>)
      ensures r == key.style
    {
      key.style
    }

    /** `getVariation()`: the key's variation, possibly absent. */
    function GetVariation(): (r: Option<string>)
      ensures r == key.variation
    {
      key.variation
    }

    /** `getExtension()`: the extension of the reference's name. */
    function GetExtension(): (r: Option<string>)
      ensures r.Some? ==> '.' !in r.value && '?' !in r.value && IsLowerCase(r.value)
    {
      ExtensionOf(GetName())
    }

    /** `getUrlAttributes()`: the locale, style and variation of the key. */
    function GetUrlAttributes(): (r: UrlAttributes)
      ensures r.locale == key.locale && r.style == key.style && r.variation == key.variation
    {
      UrlAttributes(GetLocale(), GetStyle(), GetVariation())
    }

    /** `canBeRegistered()`: a reference may be registered by default. */
    function CanBeRegistered(): (r: bool)
      ensures r
    {
      true
    }

    /** `getDependencies()`: a reference depends on no header items by default. */
    function GetDependencies(): (r: seq<HeaderItem>)
      ensures |r| == 0
    {
      []
    }

    /**
     * `equals(obj)`: the same object, or another resource reference with an
     * equal key; integrity and cross-origin play no part.
     */
    function Equals(that: object?): (r: bool)
      ensures r <==> that is ResourceReference && (that as ResourceReference).key == key
    {
      if this == that then true
      else if !(that is ResourceReference) then false
      else KeyEquals(key, (that as ResourceReference).key)
    }

    /** `hashCode()`: the key's hash code. */
    function HashCode(hs: FieldHashes): (r: Int32)
      ensures r == KeyHashCode(key, hs)
    {
      KeyHashCode(key, hs)
    }

    /** `getIntegrity()`: the subresource-integrity value currently set, null at first. */
    function GetIntegrity(): (r: Option<string>)
      reads this
      ensures r == integrity
    {
      integrity
    }

    /**
     * `setIntegrity(integrity)`: changes that field and nothing else. `Equals`
     * and `HashCode` read only the constant key, so identity cannot change.
     */
    method SetIntegrity(integrity: Option<string>)
      modifies this`integrity
      ensures this.integrity == integrity && crossOrigin == old(crossOrigin)
    {
      this.integrity := integrity;
    }

    /** `getCrossOrigin()`: the cross-origin policy currently set, null at first. */
    function GetCrossOrigin(): (r: Option<CrossOrigin>)
      reads this
      ensures r == crossOrigin
    {
      crossOrigin
    }

    /** `setCrossOrigin(crossOrigin)`: changes that field and nothing else; identity stays. */
    method SetCrossOrigin(crossOrigin: Option<CrossOrigin>)
      modifies this`crossOrigin
      ensures this.crossOrigin == crossOrigin && integrity == old(integrity)
    {
      this.crossOrigin := crossOrigin;
    }
  }

  /**
   * `ResourceReference(key)`, as a subclass calls it: fails on a null key,
   * otherwise a new reference with that key and no metadata.
   */
  method NewReference(key: Option<Key>) returns (r: Result<ResourceReference, ArgumentError>)
    ensures key.None? ==> r == Failure(NullArgument("key"))
    ensures key.Some? ==> r.Success? && fresh(r.value) && r.value.key == key.value && r.value.backing == Subclass
    ensures r.Success? ==> r.value.integrity == None && r.value.crossOrigin == None
  {
    match NotNull(key, "key")
    case Failure(e) => r := Failure(e);
    case Success(k) =>
      var reference := new ResourceReference(k, Subclass);
      r := Success(reference);
  }

  /**
   * `ResourceReference(scope, name, locale, style, variation)`: fails on a
   * null scope, then on a null name; otherwise the key holds the scope class's
   * name and the other arguments.
   */
  method NewScopedReference(scope: Option<string>, name: Option<string>, locale: Option<Locale>,
                            style: Option<string>, variation: Option<string>)
    returns (r: Result<ResourceReference, ArgumentError>)
    ensures scope.None? ==> r == Failure(NullArgument("scope"))
    ensures scope.Some? && name.None? ==> r == Failure(NullArgument("name"))
    ensures scope.Some? && name.Some? ==>
      r.Success? && fresh(r.value) && r.value.backing == Subclass &&
      r.value.key == Key(scope.value, name.value, locale, style, variation)
    ensures r.Success? ==> r.value.integrity == None && r.value.crossOrigin == None
  {
    if scope.None? {
      return Failure(NullArgument("scope"));
    }
    if name.None? {
      return Failure(NullArgument("name"));
    }
    match NewKey(scope, name, locale, style, variation)
    case Failure(e) =>
      assert false;
      r := Failure(e);
    case Success(k) =>
      var reference := new ResourceReference(k, Subclass);
      r := Success(reference);
  }

  /** `ResourceReference(scope, name)`: no locale, style or variation. */
  method NewScopedReferenceWithoutVariant(scope: Option<string>, name: Option<string>)
    returns (r: Result<ResourceReference, ArgumentError>)
    ensures scope.None? ==> r == Failure(NullArgument("scope"))
    ensures scope.Some? && name.None? ==> r == Failure(NullArgument("name"))
    ensures scope.Some? && name.Some? ==>
      r.Success? && fresh(r.value) && r.value.backing == Subclass &&
      r.value.key == Key(scope.value, name.value, None, None, None)
    ensures r.Success? ==> r.value.integrity == None && r.value.crossOrigin == None
  {
    r := NewScopedReference(scope, name, None, None, None);
  }

  /** `ResourceReference(name)`: scoped to the application class. */
  method NewNamedReference(name: Option<string>) returns (r: Result<ResourceReference, ArgumentError>)
    ensures name.None? ==> r == Failure(NullArgument("name"))
    ensures name.Some? ==>
      r.Success? && fresh(r.value) && r.value.backing == Subclass &&
      r.value.key == Key(APPLICATION_SCOPE, name.value, None, None, None)
    ensures r.Success? ==> r.value.integrity == None && r.value.crossOrigin == None
  {
    r := NewScopedReference(Some(APPLICATION_SCOPE), name, None, None, None);
  }

  /**
   * `LambdaResourceReference(name, resourceBuilder)`, also `ResourceReference.of(name, supplier)`:
   * the name is checked first (by the super constructor), then the supplier.
   */
  method NewLambdaReferenceByName(name: Option<string>, resourceBuilder: Option<Supplier>)
    returns (r: Result<ResourceReference, ArgumentError>)
    ensures name.None? ==> r == Failure(NullArgument("name"))
    ensures name.Some? && resourceBuilder.None? ==> r == Failure(NullArgument("resourceBuilder"))
    ensures name.Some? && resourceBuilder.Some? ==>
      r.Success? && fresh(r.value) && r.value.backing == Lambda(resourceBuilder.value) &&
      r.value.key == Key(APPLICATION_SCOPE, name.value, None, None, None)
    ensures r.Success? ==> r.value.integrity == None && r.value.crossOrigin == None
  {
    if name.None? {
      return Failure(NullArgument("name"));
    }
    match NotNull(resourceBuilder, "resourceBuilder")
    case Failure(e) => r := Failure(e);
    case Success(b) =>
      var reference := new ResourceReference(Key(APPLICATION_SCOPE, name.value, None, None, None), Lambda(b));
      r := Success(reference);
  }

  /**
   * `LambdaResourceReference(key, resourceBuilder)`, also `ResourceReference.of(key, supplier)`:
   * the key is checked first (by the super constructor), then the supplier.
   */
  method NewLambdaReferenceByKey(key: Option<Key>, resourceBuilder: Option<Supplier>)
    returns (r: Result<ResourceReference, ArgumentError>)
    ensures key.None? ==> r == Failure(NullArgument("key"))
    ensures key.Some? && resourceBuilder.None? ==> r == Failure(NullArgument("resourceBuilder"))
    ensures key.Some? && resourceBuilder.Some? ==>
      r.Success? && fresh(r.value) && r.value.backing == Lambda(resourceBuilder.value) &&
      r.value.key == key.value
    ensures r.Success? ==> r.value.integrity == None && r.value.crossOrigin == None
  {
    if key.None? {
      return Failure(NullArgument("key"));
    }
    match NotNull(resourceBuilder, "resourceBuilder")
    case Failure(e) => r := Failure(e);
    case Success(b) =>
      var reference := new ResourceReference(key.value, Lambda(b));
      r := Success(reference);
  }

  /** Reference equality is an equivalence relation. */
  lemma EqualsIsEquivalence(a: ResourceReference, b: ResourceReference, c: ResourceReference)
    ensures a.Equals(a)
    ensures a.Equals(b) ==> b.Equals(a)
    ensures a.Equals(b) && b.Equals(c) ==> a.Equals(c)
  {
  }

  /**
   * Equal references hash equally and agree on everything derived from the
   * key: name, extension and URL attributes.
   */
  lemma EqualReferencesAgree(a: ResourceReference, b: ResourceReference, hs: FieldHashes)
    requires a.Equals(b)
    ensures a.HashCode(hs) == b.HashCode(hs)
    ensures a.GetName() == b.GetName() && a.GetExtension() == b.GetExtension()
    ensures a.GetUrlAttributes() == b.GetUrlAttributes()
  {
  }

  /**
   * Two references built on the same key are equal and hash equally, whatever
   * integrity or cross-origin policy either carries.
   */
  lemma MetadataIsNotIdentity(a: ResourceReference, b: ResourceReference, hs: FieldHashes)
    requires a.key == b.key
    ensures a.Equals(b) && b.Equals(a)
    ensures a.HashCode(hs) == b.HashCode(hs)
  {
  }

  /**
   * Setting integrity and cross-origin on a reference leaves its equality
   * with every other object and its hash code as they were: `equalBefore` and
   * `hashBefore` are their values on entry, and they still hold after both
   * setters. (`Equals` and `HashCode` read only the constant key, so Dafny
   * refuses to state this with `old`, which would have no effect.)
   */
  method SettersKeepIdentity(a: ResourceReference, that: object?, hs: FieldHashes,
                             equalBefore: bool, hashBefore: Int32,
                             integrity: Option<string>, crossOrigin: Option<CrossOrigin>)
    requires a.Equals(that) == equalBefore && a.HashCode(hs) == hashBefore
    modifies a
    ensures a.GetIntegrity() == integrity && a.GetCrossOrigin() == crossOrigin
    ensures a.Equals(that) == equalBefore && a.HashCode(hs) == hashBefore
  {
    a.SetIntegrity(integrity);
    a.SetCrossOrigin(crossOrigin);
  }
}
