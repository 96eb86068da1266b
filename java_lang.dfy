/**
 * The library behaviour the resource reference relies on: from the Java
 * platform, 32-bit `int` arithmetic, `String.indexOf`/`lastIndexOf` and
 * lower-casing; from Wicket's own utilities (`org.apache.wicket.util.lang`),
 * `Objects.equal` and the `Args.notNull` argument check.
 */
module JavaLang {
  import opened Wrappers

  /** 2^32: two Java ints are the same when they agree modulo this. */
  const INT_RANGE: int := 0x1_0000_0000

  /** The values of a Java `int`. */
  type Int32 = x: int | -0x8000_0000 <= x < 0x8000_0000

  /** `a` and `b` denote the same Java int. */
  predicate Congruent(a: int, b: int) {
    (a - b) % INT_RANGE == 0
  }

  /** Wrap-around of a mathematical integer into a Java int, as `int` arithmetic does. */
  function ToInt32(x: int): (r: Int32)
    ensures Congruent(r, x)
  {
    var r := (x + 0x8000_0000) % INT_RANGE - 0x8000_0000;
    assert r - x == -INT_RANGE * ((x + 0x8000_0000) / INT_RANGE);
    MultipleIsCongruent(r - x, -((x + 0x8000_0000) / INT_RANGE));
    r
  }

  lemma MultipleIsCongruent(d: int, q: int)
    requires d == INT_RANGE * q
    ensures d % INT_RANGE == 0
  {
  }

  /** Congruence is symmetric. */
  lemma {:induction false} CongruentSym(a: int, b: int)
    requires Congruent(a, b)
    ensures Congruent(b, a)
  {
    var p := (a - b) / INT_RANGE;
    assert a - b == INT_RANGE * p;
    MultipleIsCongruent(b - a, -p);
  }

  /** Congruence is transitive. */
  lemma {:induction false} CongruentTrans(a: int, b: int, c: int)
    requires Congruent(a, b) && Congruent(b, c)
    ensures Congruent(a, c)
  {
    var p, q := (a - b) / INT_RANGE, (b - c) / INT_RANGE;
    assert a - b == INT_RANGE * p;
    assert b - c == INT_RANGE * q;
    MultipleIsCongruent(a - c, p + q);
  }

  /** Congruence is preserved by `31 * _ + h`. */
  lemma {:induction false} CongruentMulAdd31(a: int, b: int, h: int)
    requires Congruent(a, b)
    ensures Congruent(31 * a + h, 31 * b + h)
  {
    var p := (a - b) / INT_RANGE;
    assert a - b == INT_RANGE * p;
    MultipleIsCongruent((31 * a + h) - (31 * b + h), 31 * p);
  }

  /** Two Java ints that are congruent are the same int. */
  lemma {:induction false} CongruentInt32Unique(a: Int32, b: Int32)
    requires Congruent(a, b)
    ensures a == b
  {
    var p := (a - b) / INT_RANGE;
    assert a - b == INT_RANGE * p;
  }

  /** Wrapping the accumulator before a `31 * _ + h` step does not change the wrapped result. */
  lemma {:induction false} ToInt32MulAdd31(a: int, h: int)
    ensures ToInt32(31 * ToInt32(a) + h) == ToInt32(31 * a + h)
  {
    var w := ToInt32(a);
    var x, y := 31 * w + h, 31 * a + h;
    var wx, wy := ToInt32(x), ToInt32(y);
    CongruentMulAdd31(w, a, h);
    CongruentTrans(wx, x, y);
    CongruentSym(wy, y);
    CongruentTrans(wx, y, wy);
    CongruentInt32Unique(wx, wy);
  }

  /** The 31-polynomial `h[0]*31^(n-1) + ... + h[n-1]` over unbounded integers. */
  function Polynomial31(hs: seq<int>): int {
    if hs == [] then 0 else 31 * Polynomial31(hs[..|hs| - 1]) + hs[|hs| - 1]
  }

  /**
   * The hash-combining idiom `result = 31 * result + h`, applied to the field
   * hashes in order in Java `int` arithmetic: it is the 31-polynomial wrapped
   * to 32 bits.
   */
  function HashCombine(hs: seq<Int32>): (r: Int32)
    ensures r == ToInt32(Polynomial31(hs))
  {
    if hs == [] then 0
    else
      var acc := HashCombine(hs[..|hs| - 1]);
      ToInt32MulAdd31(Polynomial31(hs[..|hs| - 1]), hs[|hs| - 1]);
      ToInt32(31 * acc + hs[|hs| - 1])
  }

  /** `x != null ? x.hashCode() : 0`: a null field contributes 0 to a hash. */
  function HashOrZero<T>(x: Option<T>, hash: T -> Int32): (r: Int32)
    ensures x.None? ==> r == 0
    ensures x.Some? ==> r == hash(x.value)
  {
    match x
    case None => 0
    case Some(v) => hash(v)
  }

  /** Wicket's `Objects.equal(a, b)`: both null, or both present and equal. */
  function ObjectsEqual<T(==)>(a: Option<T>, b: Option<T>): (r: bool)
    ensures r <==> a == b
  {
    match (a, b)
    case (None, None) => true
    case (Some(x), Some(y)) => x == y
    case _ => false
  }

  /** `s.indexOf(c)`: the first position of `c` in `s`, or -1. */
  function IndexOf(s: string, c: char): (r: int)
    ensures -1 <= r < |s|
    ensures r == -1 <==> c !in s
    ensures r != -1 ==> s[r] == c && c !in s[..r]
  {
    if s == [] then -1
    else if s[0] == c then 0
    else
      var i := IndexOf(s[1..], c);
      if i == -1 then -1
      else
        assert s[..i + 1] == [s[0]] + s[1..][..i];
        i + 1
  }

  /** `s.lastIndexOf(c)`: the last position of `c` in `s`, or -1. */
  function LastIndexOf(s: string, c: char): (r: int)
    ensures -1 <= r < |s|
    ensures r == -1 <==> c !in s
    ensures r != -1 ==> s[r] == c && c !in s[r + 1..]
  {
    if s == [] then -1
    else if s[|s| - 1] == c then |s| - 1
    else
      var i := LastIndexOf(s[..|s| - 1], c);
      assert s == s[..|s| - 1] + [s[|s| - 1]];
      assert i != -1 ==> s[i + 1..] == s[..|s| - 1][i + 1..] + [s[|s| - 1]];
      i
  }

  /** `lastIndexOf` finds the one position holding `c` with no `c` after it. */
  lemma LastIndexOfAt(s: string, c: char, k: int)
    requires 0 <= k < |s| && s[k] == c && c !in s[k + 1..]
    ensures LastIndexOf(s, c) == k
  {
    var p := LastIndexOf(s, c);
    assert forall i :: p < i < |s| ==> s[i] != c by {
      assert forall i :: p < i < |s| ==> s[i] == s[p + 1..][i - p - 1];
    }
    assert forall i :: k < i < |s| ==> s[i] != c by {
      assert forall i :: k < i < |s| ==> s[i] == s[k + 1..][i - k - 1];
    }
  }

  predicate IsUpperCase(ch: char) {
    'A' <= ch <= 'Z'
  }

  predicate IsLetter(ch: char) {
    'A' <= ch <= 'Z' || 'a' <= ch <= 'z'
  }

  /** Lower-casing of one character, restricted to ASCII letters. */
  function ToLowerChar(ch: char): (r: char)
    ensures !IsUpperCase(r)
    ensures IsUpperCase(ch) ==> r as int == ch as int + 32
    ensures !IsUpperCase(ch) ==> r == ch
  {
    if IsUpperCase(ch) then (ch as int + 32) as char else ch
  }

  /** No character of `s` is an upper-case letter. */
  predicate IsLowerCase(s: string) {
    forall i :: 0 <= i < |s| ==> !IsUpperCase(s[i])
  }

  /** `s.toLowerCase(Locale.ROOT)`, restricted to ASCII letters. */
  function ToLowerCase(s: string): (r: string)
    ensures |r| == |s|
    ensures forall i :: 0 <= i < |s| ==> r[i] == ToLowerChar(s[i])
  {
    if s == [] then [] else [ToLowerChar(s[0])] + ToLowerCase(s[1..])
  }

  /** Lower-casing yields a lower-case string and introduces no character other than a letter. */
  lemma ToLowerCaseFacts(s: string)
    ensures IsLowerCase(ToLowerCase(s))
    ensures forall c :: !IsLetter(c) && c !in s ==> c !in ToLowerCase(s)
  {
  }

  /** Lower-casing a lower-case string changes nothing. */
  lemma LowerCaseFixpoint(s: string)
    requires IsLowerCase(s)
    ensures ToLowerCase(s) == s
  {
  }

  /** The error Wicket's `Args.notNull(value, name)` throws: an IllegalArgumentException naming the argument. */
  datatype ArgumentError = NullArgument(argument: string)

  /** Wicket's `Args.notNull(value, name)`: the value when present, the error otherwise. */
  function NotNull<T>(value: Option<T>, name: string): (r: Result<T, ArgumentError>)
    ensures r.Success? <==> value.Some?
    ensures r.Success? ==> r.value == value.value
    ensures r.Failure? ==> r.error == NullArgument(name)
  {
    match value
    case None => Failure(NullArgument(name))
    case Some(v) => Success(v)
  }
}
