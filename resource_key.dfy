/**
 * The identity of a resource reference (`ResourceReference.Key`) and the
 * locale/style/variation triple used to select a URL variant
 * (`ResourceReference.UrlAttributes`): immutable values with structural
 * equality and Java's 31-polynomial `hashCode`.
 */
module ResourceKeys {
  import opened Wrappers
  import opened JavaLang

  /** A `java.util.Locale`, compared by its parts. */
  datatype Locale = Locale(language: string, country: string, variant: string)

  /**
   * The `hashCode()` of the field types, which live outside this model:
   * `String.hashCode` and `Locale.hashCode`.
   */
  datatype FieldHashes = FieldHashes(ofString: string -> Int32, ofLocale: Locale -> Int32)

  /**
   * `ResourceReference.Key`. `scope` (the name of the scope class) and `name`
   * are never null; the other three are optional.
   */
  datatype Key = Key(
    scope: string,
    name: string,
    locale: Option<Locale>,
    style: Option<string>,
    variation: Option<string>)

  /**
   * The `Key(scope, name, locale, style, variation)` constructor: fails on a
   * null scope, then on a null name. Interning keeps a string's content, so
   * every field holds its argument.
   */
  function NewKey(scope: Option<string>, name: Option<string>, locale: Option<Locale>,
                  style: Option<string>, variation: Option<string>): (r: Result<Key, ArgumentError>)
    ensures r.Success? <==> scope.Some? && name.Some?
    ensures scope.None? ==> r.error == NullArgument("scope")
    ensures scope.Some? && name.None? ==> r.error == NullArgument("name")
    ensures r.Success? ==>
      r.value.scope == scope.value && r.value.name == name.value &&
      r.value.locale == locale && r.value.style == style && r.value.variation == variation
  {
    match NotNull(scope, "scope")
    case Failure(e) => Failure(e)
    case Success(s) =>
      match NotNull(name, "name")
      case Failure(e) => Failure(e)
      case Success(n) => Success(Key(s, n, locale, style, variation))
  }

  /** `Key.equals`: field by field with `Objects.equal`; it is structural equality. */
  function KeyEquals(a: Key, b: Key): (r: bool)
    ensures r <==> a == b
  {
    ObjectsEqual(Some(a.scope), Some(b.scope)) &&
    ObjectsEqual(Some(a.name), Some(b.name)) &&
    ObjectsEqual(a.locale, b.locale) &&
    ObjectsEqual(a.style, b.style) &&
    ObjectsEqual(a.variation, b.variation)
  }

  /** The hashes `Key.hashCode` combines, in order; an absent field contributes 0. */
  function KeyFieldHashes(k: Key, hs: FieldHashes): seq<Int32> {
    [hs.ofString(k.scope), hs.ofString(k.name), HashOrZero(k.locale, hs.ofLocale),
     HashOrZero(k.style, hs.ofString), HashOrZero(k.variation, hs.ofString)]
  }

  /**
   * `Key.hashCode`: the five field hashes combined with `31 * result + h` in
   * Java `int`; it equals the unbounded 31-polynomial wrapped to 32 bits.
   */
  function KeyHashCode(k: Key, hs: FieldHashes): (r: Int32)
    ensures r == ToInt32(31 * 31 * 31 * 31 * hs.ofString(k.scope)
                         + 31 * 31 * 31 * hs.ofString(k.name)
                         + 31 * 31 * HashOrZero(k.locale, hs.ofLocale)
                         + 31 * HashOrZero(k.style, hs.ofString)
                         + HashOrZero(k.variation, hs.ofString))
  {
    var f := KeyFieldHashes(k, hs);
    var g: seq<int> := f;
    assert Polynomial31(g[..1]) == g[0] by { assert g[..1][..0] == []; }
    assert Polynomial31(g[..2]) == 31 * g[0] + g[1] by { assert g[..2][..1] == g[..1]; }
    assert Polynomial31(g[..3]) == 31 * 31 * g[0] + 31 * g[1] + g[2] by { assert g[..3][..2] == g[..2]; }
    assert Polynomial31(g[..4]) == 31 * 31 * 31 * g[0] + 31 * 31 * g[1] + 31 * g[2] + g[3]
      by { assert g[..4][..3] == g[..3]; }
    assert g[..5][..4] == g[..4] && g[..5] == g;
    HashCombine(f)
  }

  /** Equal keys have equal hash codes. */
  lemma KeyHashCodeOfEqualKeys(a: Key, b: Key, hs: FieldHashes)
    requires KeyEquals(a, b)
    ensures KeyHashCode(a, hs) == KeyHashCode(b, hs)
  {
  }

  /** A key with only scope and name hashes as if its three optional fields hashed to 0. */
  lemma KeyHashCodeOfBareKey(scope: string, name: string, hs: FieldHashes)
    ensures KeyHashCode(Key(scope, name, None, None, None), hs)
         == ToInt32(31 * 31 * 31 * 31 * hs.ofString(scope) + 31 * 31 * 31 * hs.ofString(name))
  {
  }

  /** `ResourceReference.UrlAttributes`: no argument is checked. */
  datatype UrlAttributes = UrlAttributes(locale: Option<Locale>, style: Option<string>, variation: Option<string>)

  /** `UrlAttributes.equals`: field by field with `Objects.equal`; it is structural equality. */
  function UrlAttributesEquals(a: UrlAttributes, b: UrlAttributes): (r: bool)
    ensures r <==> a == b
  {
    ObjectsEqual(a.locale, b.locale) &&
    ObjectsEqual(a.style, b.style) &&
    ObjectsEqual(a.variation, b.variation)
  }

  /** `UrlAttributes.equals` is an equivalence relation, all-absent triples included. */
  lemma UrlAttributesEqualsIsEquivalence(a: UrlAttributes, b: UrlAttributes, c: UrlAttributes)
    ensures UrlAttributesEquals(a, a)
    ensures UrlAttributesEquals(UrlAttributes(None, None, None), UrlAttributes(None, None, None))
    ensures UrlAttributesEquals(a, b) ==> UrlAttributesEquals(b, a)
    ensures UrlAttributesEquals(a, b) && UrlAttributesEquals(b, c) ==> UrlAttributesEquals(a, c)
  {
  }

  /** The hashes `UrlAttributes.hashCode` combines, in order; an absent field contributes 0. */
  function UrlAttributesFieldHashes(u: UrlAttributes, hs: FieldHashes): seq<Int32> {
    [HashOrZero(u.locale, hs.ofLocale), HashOrZero(u.style, hs.ofString), HashOrZero(u.variation, hs.ofString)]
  }

  /**
   * `UrlAttributes.hashCode`: the three field hashes combined with
   * `31 * result + h` in Java `int`; it equals the unbounded 31-polynomial
   * wrapped to 32 bits.
   */
  function UrlAttributesHashCode(u: UrlAttributes, hs: FieldHashes): (r: Int32)
    ensures r == ToInt32(31 * 31 * HashOrZero(u.locale, hs.ofLocale)
                         + 31 * HashOrZero(u.style, hs.ofString)
                         + HashOrZero(u.variation, hs.ofString))
  {
    var f := UrlAttributesFieldHashes(u, hs);
    var g: seq<int> := f;
    assert Polynomial31(g[..1]) == g[0] by { assert g[..1][..0] == []; }
    assert Polynomial31(g[..2]) == 31 * g[0] + g[1] by { assert g[..2][..1] == g[..1]; }
    assert g[..3][..2] == g[..2] && g[..3] == g;
    HashCombine(f)
  }

  /** Equal triples have equal hash codes, and the all-absent triple hashes to 0. */
  lemma UrlAttributesHashCodeFacts(a: UrlAttributes, b: UrlAttributes, hs: FieldHashes)
    ensures UrlAttributesEquals(a, b) ==> UrlAttributesHashCode(a, hs) == UrlAttributesHashCode(b, hs)
    ensures UrlAttributesHashCode(UrlAttributes(None, None, None), hs) == 0
  {
  }
}
