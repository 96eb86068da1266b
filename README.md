# ResourceReference, modelled in Dafny

A model of Apache Wicket's `ResourceReference`
(`wicket-core/src/main/java/org/apache/wicket/request/resource/ResourceReference.java`).
A resource reference identifies a shared, cacheable resource, such as a script, stylesheet or image, by one
immutable `Key`. The key is a scope (the name of a class), a name, and an optional locale,
style and variation. The reference also acts as a factory for the resource. It carries two
pieces of mutable presentation metadata, the subresource-integrity string and the
cross-origin policy, which are not part of its identity.

Files:

- `wrappers.dfy`: `Option` (a Java reference that may be null) and `Result` (a value or a thrown exception).
- `java_lang.dfy`: the library behaviour the class relies on.
  - From the Java platform: `int` wrap-around (`ToInt32`) and the `31 * result + h` hash idiom (`HashCombine`).
  - From the Java platform: `String.indexOf` and `String.lastIndexOf`.
  - From the Java platform: lower-casing.
  - From Wicket's own `org.apache.wicket.util.lang` utilities: `Objects.equal` and `Args.notNull`.
- `resource_key.dfy`: `Key` and `UrlAttributes` as datatypes, with their constructors, `equals` and `hashCode`.
- `resource_extension.dfy`: `getExtension` with the lemmas that characterise it.
- `resource_reference.dfy`: the `ResourceReference` class and its constructors.
  - The class has a `const key`, a `const backing`, and `var` fields for integrity and cross-origin.
  - The constructors are modelled as methods that return `Result`.
  - `backing` stands for the abstract class and its closure-backed subclass `LambdaResourceReference`. It is `Subclass` for a subclass's own `getResource()` and `Lambda(supplier)` for `LambdaResourceReference`.

Modelling choices:

- A Java `null` argument is `None`. A constructor that throws `IllegalArgumentException` returns `Failure(NullArgument(<argument name>))`.
- A scope `Class<?>` is represented by its name, which is what the source stores.
- `String.intern()` preserves content, so it is the identity here.
- `String.hashCode` and `Locale.hashCode` come from outside this file. They are passed in as a `FieldHashes` record of functions into `Int32`.
- Every `31 * result + h` step is computed in 32-bit two's complement. `HashCombine` is proved equal to the unbounded 31-polynomial reduced to a Java `int`. The unbounded polynomial is `Polynomial31`, and the reduction is `ToInt32`.
- `toLowerCase(Locale.ROOT)` is modelled on ASCII letters only.
- `Equals` and `HashCode` read only the constant key and declare no `reads` clause. Dafny therefore guarantees that `SetIntegrity` and `SetCrossOrigin` cannot change them.

## Model

| member | source | states |
|---|---|---|
| `JavaLang.HashCombine` | wicket-core/src/main/java/org/apache/wicket/request/resource/ResourceReference.java:427-433 | `result = 31 * result + h` over the field hashes, in Java `int`, equals the 31-polynomial of those hashes wrapped to 32 bits |
| `JavaLang.ToInt32MulAdd31` | wicket-core/src/main/java/org/apache/wicket/request/resource/ResourceReference.java:519-524 | wrapping the accumulator between steps does not change the wrapped result |
| `JavaLang.HashOrZero` | wicket-core/src/main/java/org/apache/wicket/request/resource/ResourceReference.java:430-432 | a null field contributes 0, a present one its own hash |
| `JavaLang.ObjectsEqual` | wicket-core/src/main/java/org/apache/wicket/request/resource/ResourceReference.java:510-514 | `Objects.equal` on nullable values is exactly equality of the optional values (null equals null) |
| `JavaLang.IndexOf` | wicket-core/src/main/java/org/apache/wicket/request/resource/ResourceReference.java:143 | -1 exactly when the character is absent, otherwise a position holding it with no earlier occurrence |
| `JavaLang.LastIndexOf` | wicket-core/src/main/java/org/apache/wicket/request/resource/ResourceReference.java:152 | -1 exactly when the character is absent, otherwise a position holding it with no later occurrence |
| `JavaLang.ToLowerCase` | wicket-core/src/main/java/org/apache/wicket/request/resource/ResourceReference.java:160 | same length, each character lower-cased in place |
| `JavaLang.LowerCaseFixpoint` | wicket-core/src/main/java/org/apache/wicket/request/resource/ResourceReference.java:160 | lower-casing a string with no upper-case letter leaves it unchanged |
| `JavaLang.NotNull` | wicket-core/src/main/java/org/apache/wicket/request/resource/ResourceReference.java:488-489 | succeeds with the value exactly when it is present, otherwise fails naming the argument |
| `ResourceKeys.NewKey` | wicket-core/src/main/java/org/apache/wicket/request/resource/ResourceReference.java:485-496 | fails exactly when scope or name is null (scope reported first); otherwise every field equals its argument, with locale, style and variation allowed to be null |
| `ResourceKeys.KeyEquals` | wicket-core/src/main/java/org/apache/wicket/request/resource/ResourceReference.java:498-515 | holds exactly when all five fields are equal (absent equal to absent) |
| `ResourceKeys.KeyHashCode` | wicket-core/src/main/java/org/apache/wicket/request/resource/ResourceReference.java:517-525 | equals the 31-polynomial over scope, name, locale, style and variation hashes, with 0 for an absent field, wrapped to a Java `int` |
| `ResourceKeys.KeyHashCodeOfEqualKeys` | wicket-core/src/main/java/org/apache/wicket/request/resource/ResourceReference.java:498-525 | equal keys have equal hash codes |
| `ResourceKeys.KeyHashCodeOfBareKey` | wicket-core/src/main/java/org/apache/wicket/request/resource/ResourceReference.java:519-523 | a key with no locale, style or variation hashes from scope and name alone |
| `ResourceKeys.UrlAttributesEquals` | wicket-core/src/main/java/org/apache/wicket/request/resource/ResourceReference.java:410-425 | holds exactly when locale, style and variation are equal |
| `ResourceKeys.UrlAttributesEqualsIsEquivalence` | wicket-core/src/main/java/org/apache/wicket/request/resource/ResourceReference.java:410-425 | reflexive (the all-absent triple included), symmetric, transitive |
| `ResourceKeys.UrlAttributesHashCode` | wicket-core/src/main/java/org/apache/wicket/request/resource/ResourceReference.java:427-434 | equals the 31-polynomial over locale, style and variation hashes, with 0 for an absent field, wrapped to a Java `int` |
| `ResourceKeys.UrlAttributesHashCodeFacts` | wicket-core/src/main/java/org/apache/wicket/request/resource/ResourceReference.java:427-434 | equal triples hash equally; the all-absent triple hashes to 0 |
| `ResourceExtension.BeforeQuery` | wicket-core/src/main/java/org/apache/wicket/request/resource/ResourceReference.java:143-149 | the longest prefix of the name without `?`: no `?` in it, and it is followed by a `?` or is all of the name |
| `ResourceExtension.AfterLastDot` | wicket-core/src/main/java/org/apache/wicket/request/resource/ResourceReference.java:152-160 | absent exactly when there is no `.`; otherwise the suffix after a `.` containing no `.` |
| `ResourceExtension.ExtensionOf` | wicket-core/src/main/java/org/apache/wicket/request/resource/ResourceReference.java:139-161 | a returned extension contains no `.`, no `?` and no upper-case letter |
| `ResourceExtension.BeforeQueryIsIndexOfCut` | wicket-core/src/main/java/org/apache/wicket/request/resource/ResourceReference.java:143-149 | cutting at `indexOf('?')` when it is found gives exactly the part before the first `?` |
| `ResourceExtension.AfterLastDotIsLastIndexOfCut` | wicket-core/src/main/java/org/apache/wicket/request/resource/ResourceReference.java:152-160 | the text after `lastIndexOf('.')` is exactly the text after the last `.` |
| `ResourceExtension.ExtensionOfSpec` | wicket-core/src/main/java/org/apache/wicket/request/resource/ResourceReference.java:143-160 | the extension is the lower-cased text after the last `.` of the query-stripped name, or absent when it has no `.` |
| `ResourceExtension.ExtensionAbsentIff` | wicket-core/src/main/java/org/apache/wicket/request/resource/ResourceReference.java:152-157 | absent exactly when no `.` comes before the first `?` |
| `ResourceExtension.QueryIgnored` | wicket-core/src/main/java/org/apache/wicket/request/resource/ResourceReference.java:143-149 | appending `?` and any query, dots included, to a `?`-free name leaves its extension unchanged |
| `ResourceExtension.ExtensionIsLowerCaseFixpoint` | wicket-core/src/main/java/org/apache/wicket/request/resource/ResourceReference.java:160 | lower-casing a returned extension again changes nothing |
| `ResourceExtension.ExtensionOfStemDotExt` | wicket-core/src/main/java/org/apache/wicket/request/resource/ResourceReference.java:152-160 | a query-free `stem.ext`, where `ext` has no `.`, has extension `ext` lower-cased, whatever `stem` holds |
| `ResourceExtension.BeforeQueryOfQueryFree` | wicket-core/src/main/java/org/apache/wicket/request/resource/ResourceReference.java:146-149 | a name without `?` is kept whole |
| `ResourceExtension.ExtensionOfScript` | wicket-core/src/main/java/org/apache/wicket/request/resource/ResourceReference.java:139-161 | `"a/b/script.js"` gives `"js"` |
| `ResourceExtension.ExtensionOfScriptWithQuery` | wicket-core/src/main/java/org/apache/wicket/request/resource/ResourceReference.java:139-161 | `"a/b/script.js?x=1"` gives `"js"` |
| `ResourceExtension.ExtensionOfNoDot` | wicket-core/src/main/java/org/apache/wicket/request/resource/ResourceReference.java:154-157 | `"noext"` gives absent |
| `ResourceExtension.ExtensionOfUpperCase` | wicket-core/src/main/java/org/apache/wicket/request/resource/ResourceReference.java:160 | `"a.B"` gives `"b"` |
| `ResourceExtension.ExtensionOfDotInDirectory` | wicket-core/src/main/java/org/apache/wicket/request/resource/ResourceReference.java:152-160 | `"d.v/x"` gives `"v/x"`: the last `.` counts even when it is in a directory part |
| `ResourceReferences.ResourceReference.constructor` | wicket-core/src/main/java/org/apache/wicket/request/resource/ResourceReference.java:49-66 | the reference holds the given key and backing; integrity and cross-origin start out null |
| `ResourceReferences.ResourceReference.GetKey` | wicket-core/src/main/java/org/apache/wicket/request/resource/ResourceReference.java:120-123 | the key the reference was built with |
| `ResourceReferences.ResourceReference.GetName` | wicket-core/src/main/java/org/apache/wicket/request/resource/ResourceReference.java:128-131 | the key's name |
| `ResourceReferences.ResourceReference.GetLocale` | wicket-core/src/main/java/org/apache/wicket/request/resource/ResourceReference.java:174-177 | the key's locale, possibly absent |
| `ResourceReferences.ResourceReference.GetStyle` | wicket-core/src/main/java/org/apache/wicket/request/resource/ResourceReference.java:182-185 | the key's style, possibly absent |
| `ResourceReferences.ResourceReference.GetVariation` | wicket-core/src/main/java/org/apache/wicket/request/resource/ResourceReference.java:190-193 | the key's variation, possibly absent |
| `ResourceReferences.ResourceReference.GetIntegrity` | wicket-core/src/main/java/org/apache/wicket/request/resource/ResourceReference.java:258-260 | the integrity value currently set |
| `ResourceReferences.ResourceReference.GetCrossOrigin` | wicket-core/src/main/java/org/apache/wicket/request/resource/ResourceReference.java:279-281 | the cross-origin policy currently set |
| `ResourceReferences.ResourceReference.GetExtension` | wicket-core/src/main/java/org/apache/wicket/request/resource/ResourceReference.java:139-161 | the extension of the key's name holds no `.`, no `?` and no upper-case letter |
| `ResourceReferences.ResourceReference.GetUrlAttributes` | wicket-core/src/main/java/org/apache/wicket/request/resource/ResourceReference.java:246-249 | the triple is the key's locale, style and variation |
| `ResourceReferences.ResourceReference.CanBeRegistered` | wicket-core/src/main/java/org/apache/wicket/request/resource/ResourceReference.java:201-204 | registration is allowed by default |
| `ResourceReferences.ResourceReference.GetDependencies` | wicket-core/src/main/java/org/apache/wicket/request/resource/ResourceReference.java:605-608 | no dependencies by default |
| `ResourceReferences.ResourceReference.Equals` | wicket-core/src/main/java/org/apache/wicket/request/resource/ResourceReference.java:209-222 | true exactly when the other object is a resource reference with an equal key; null and other types give false |
| `ResourceReferences.ResourceReference.HashCode` | wicket-core/src/main/java/org/apache/wicket/request/resource/ResourceReference.java:227-231 | the key's hash code |
| `ResourceReferences.ResourceReference.SetIntegrity` | wicket-core/src/main/java/org/apache/wicket/request/resource/ResourceReference.java:269-271 | sets integrity; cross-origin and the key are untouched |
| `ResourceReferences.ResourceReference.SetCrossOrigin` | wicket-core/src/main/java/org/apache/wicket/request/resource/ResourceReference.java:287-289 | sets cross-origin; integrity and the key are untouched |
| `ResourceReferences.SettersKeepIdentity` | wicket-core/src/main/java/org/apache/wicket/request/resource/ResourceReference.java:269-289 | given the equality with an object and the hash code on entry, after `setIntegrity` and `setCrossOrigin` both fields hold the new values and the equality and hash code are still those given |
| `ResourceReferences.NewReference` | wicket-core/src/main/java/org/apache/wicket/request/resource/ResourceReference.java:61-66 | fails on a null key; otherwise a fresh reference with that key and no metadata |
| `ResourceReferences.NewScopedReference` | wicket-core/src/main/java/org/apache/wicket/request/resource/ResourceReference.java:82-89 | fails on a null scope, then on a null name; otherwise a fresh reference whose key holds the scope's name and the other arguments |
| `ResourceReferences.NewScopedReferenceWithoutVariant` | wicket-core/src/main/java/org/apache/wicket/request/resource/ResourceReference.java:99-102 | as above, with no locale, style or variation |
| `ResourceReferences.NewNamedReference` | wicket-core/src/main/java/org/apache/wicket/request/resource/ResourceReference.java:110-113 | fails on a null name; otherwise the key is scoped to `org.apache.wicket.Application` |
| `ResourceReferences.NewLambdaReferenceByName` | wicket-core/src/main/java/org/apache/wicket/request/resource/ResourceReference.java:327-331 | fails on a null name, then on a null supplier; otherwise an application-scoped reference backed by that supplier (also what `of(name, supplier)` at lines 301-304 builds) |
| `ResourceReferences.NewLambdaReferenceByKey` | wicket-core/src/main/java/org/apache/wicket/request/resource/ResourceReference.java:333-337 | fails on a null key, then on a null supplier; otherwise a reference with that key backed by that supplier (also what `of(key, supplier)` at lines 316-319 builds) |
| `ResourceReferences.EqualsIsEquivalence` | wicket-core/src/main/java/org/apache/wicket/request/resource/ResourceReference.java:209-222 | reference equality is reflexive, symmetric and transitive |
| `ResourceReferences.EqualReferencesAgree` | wicket-core/src/main/java/org/apache/wicket/request/resource/ResourceReference.java:209-249 | equal references have equal hash codes, names, extensions and URL attributes |
| `ResourceReferences.MetadataIsNotIdentity` | wicket-core/src/main/java/org/apache/wicket/request/resource/ResourceReference.java:49-53 | references on the same key are equal and hash equally even when their integrity or cross-origin differ |

## Left out

- `getScope` and `Key.getScopeClass` resolve a class name through reflection (`WicketObjects.resolveClass`), which is outside this file. The `Key(ResourceReference)` constructor depends on that resolution and is also not modelled.
- `UrlAttributes.sanitize` reads the global `Application` settings and calls an external sanitizer.
- `getResource` and the supplier's `get()` produce resources through code outside this file. A supplier is an opaque non-null token, and a `Lambda` backing records which supplier a reference would call.
- Subclasses overriding the non-final methods are not modelled. The model has only the base-class behaviour of `getName`, `getLocale`, `getStyle`, `getVariation`, `canBeRegistered`, `equals`, `hashCode`, `getUrlAttributes`, `getIntegrity`, `setIntegrity`, `getCrossOrigin`, `setCrossOrigin` and `getDependencies`. `getExtension` and `getUrlAttributes` therefore always see the key's own name, locale, style and variation.
- `ResourceKeys.KeyHashCode`, `ResourceKeys.UrlAttributesHashCode`: `String.hashCode` and `Locale.hashCode` are parameters, not Java's definitions. `Locale` is reduced to language, country and variant with structural equality.
- `JavaLang.ToLowerCase`: only ASCII letters are lower-cased, not the full Unicode mapping of `toLowerCase(Locale.ROOT)`.
- Characters are Unicode scalar values, not UTF-16 code units. A supplementary character therefore counts as one character, not two.
- `ResourceKeys.KeyEquals`, `ResourceKeys.UrlAttributesEquals`: modelled only between two non-null values of their own type. The `this == obj` shortcut and the `instanceof` test, which yields false for null and for other classes, are not modelled. `ResourceReference.Equals` over `object?` shows that full form.
- String interning is the identity. It saves memory and has no effect on equality.
- `toString` and serialization are not modelled. The static factories `of(name, supplier)` and `of(key, supplier)` only call the two `LambdaResourceReference` constructors and are covered by them.
- Unsynchronised concurrent use of the setters is not modelled.
