/**
 * `ResourceReference.getExtension`: the lower-cased text after the last `.`
 * of the resource name, once any query string (from the first `?` on) is
 * removed; absent when no `.` is left.
 */
module ResourceExtension {
  import opened Wrappers
  import opened JavaLang

  /** The name with its query string removed: everything before the first `?`, or all of it. */
  function BeforeQuery(name: string): (r: string)
    ensures '?' !in r
    ensures r <= name
    ensures |r| < |name| ==> name[|r|] == '?'
  {
    if name == [] || name[0] == '?' then []
    else
      var rest := BeforeQuery(name[1..]);
      assert name == [name[0]] + name[1..];
      [name[0]] + rest
  }

  /** The text after the last `.` of `path`, or None when `path` has no `.`. */
  function AfterLastDot(path: string): (r: Option<string>)
    ensures r.None? <==> '.' !in path
    ensures r.Some? ==>
      '.' !in r.value && |r.value| < |path| &&
      path[|path| - |r.value| - 1] == '.' && path[|path| - |r.value|..] == r.value
  {
    if path == [] then None
    else if path[|path| - 1] == '.' then Some([])
    else
      var init, last := path[..|path| - 1], path[|path| - 1];
      assert path == init + [last];
      match AfterLastDot(init)
      case None => None
      case Some(t) =>
        assert path[|path| - |t| - 1..] == init[|init| - |t|..] + [last];
        Some(t + [last])
  }

  /**
   * `getExtension()` on a reference named `name`: strip the query string with
   * `indexOf('?')`, find the extension with `lastIndexOf('.')` and lower-case it.
   * An extension holds no `.`, no `?` and no upper-case letter.
   */
  function ExtensionOf(name: string): (r: Option<string>)
    ensures r.Some? ==> '.' !in r.value && '?' !in r.value && IsLowerCase(r.value)
  {
    var queryAt := IndexOf(name, '?');
    var path := if queryAt != -1 then name[..queryAt] else name;
    var extPos := LastIndexOf(path, '.');
    if extPos == -1 then None
    else
      var raw := path[extPos + 1..];
      assert '?' !in raw by {
        if queryAt != -1 { assert raw <= name[extPos + 1..queryAt]; }
      }
      ToLowerCaseFacts(raw);
      Some(ToLowerCase(raw))
  }

  /** A string is fixed by the query stripping exactly when it has no `?`. */
  lemma {:induction false} BeforeQueryOfQueryFree(s: string)
    requires '?' !in s
    ensures BeforeQuery(s) == s
  {
    if s != [] {
      BeforeQueryOfQueryFree(s[1..]);
    }
  }

  /** `BeforeQuery` cuts at the first `?`, which is what `indexOf('?')` finds. */
  lemma {:induction false} BeforeQueryIsIndexOfCut(name: string)
    ensures BeforeQuery(name) == (var q := IndexOf(name, '?'); if q != -1 then name[..q] else name)
  {
    var r, q := BeforeQuery(name), IndexOf(name, '?');
    if q == -1 {
      BeforeQueryOfQueryFree(name);
    } else {
      // Both are prefixes without `?` followed by a `?`, so they have the same length.
      assert forall i :: 0 <= i < q ==> name[i] != '?' by {
        assert forall i :: 0 <= i < q ==> name[i] == name[..q][i];
      }
      assert forall i :: 0 <= i < |r| ==> name[i] == r[i];
      assert |r| == q;
    }
  }

  /** `AfterLastDot` is the text after the position `lastIndexOf('.')` finds. */
  lemma {:induction false} AfterLastDotIsLastIndexOfCut(path: string)
    ensures AfterLastDot(path) == (var p := LastIndexOf(path, '.'); if p == -1 then None else Some(path[p + 1..]))
  {
    var r := AfterLastDot(path);
    if r.Some? {
      LastIndexOfAt(path, '.', |path| - |r.value| - 1);
    }
  }

  /**
   * The extension, stated without `indexOf`/`lastIndexOf`: absent exactly when the
   * query-stripped name has no `.`, otherwise the lower-cased text after its last `.`.
   */
  lemma ExtensionOfSpec(name: string)
    ensures ExtensionOf(name) == match AfterLastDot(BeforeQuery(name))
                                 case None => None
                                 case Some(t) => Some(ToLowerCase(t))
  {
    var path := BeforeQuery(name);
    BeforeQueryIsIndexOfCut(name);
    assert path == (var q := IndexOf(name, '?'); if q != -1 then name[..q] else name);
    AfterLastDotIsLastIndexOfCut(path);
    var p := LastIndexOf(path, '.');
    if p == -1 {
      assert AfterLastDot(path) == None;
      assert ExtensionOf(name) == None;
    } else {
      assert AfterLastDot(path) == Some(path[p + 1..]);
      assert ExtensionOf(name) == Some(ToLowerCase(path[p + 1..]));
    }
  }

  /** The extension is absent exactly when no `.` comes before the first `?`. */
  lemma ExtensionAbsentIff(name: string)
    ensures ExtensionOf(name).None? <==> '.' !in BeforeQuery(name)
  {
    ExtensionOfSpec(name);
  }

  /** Only the part before the first `?` matters: a `.` in the query never affects the result. */
  lemma QueryIgnored(base: string, query: string)
    requires '?' !in base
    ensures ExtensionOf(base + ['?'] + query) == ExtensionOf(base)
  {
    var name := base + ['?'] + query;
    assert BeforeQuery(name) == base by {
      BeforeQueryIsIndexOfCut(name);
      assert name[..|base|] == base;
      assert name[|base|] == '?';
    }
    BeforeQueryOfQueryFree(base);
    ExtensionOfSpec(name);
    ExtensionOfSpec(base);
  }

  /** An extension is already lower case: lower-casing it again changes nothing. */
  lemma ExtensionIsLowerCaseFixpoint(name: string)
    requires ExtensionOf(name).Some?
    ensures ToLowerCase(ExtensionOf(name).value) == ExtensionOf(name).value
  {
    LowerCaseFixpoint(ExtensionOf(name).value);
  }

  /**
   * A query-free name `stem.ext` whose `ext` has no `.` has extension
   * `ext` lower-cased, whatever `stem` holds.
   */
  lemma {:induction false} ExtensionOfStemDotExt(stem: string, ext: string)
    requires '?' !in stem && '?' !in ext && '.' !in ext
    ensures ExtensionOf(stem + ['.'] + ext) == Some(ToLowerCase(ext))
  {
    var name := stem + ['.'] + ext;
    assert IndexOf(name, '?') == -1;
    assert name[|stem| + 1..] == ext;
    LastIndexOfAt(name, '.', |stem|);
  }

  /** Worked cases. */
  lemma ExtensionOfScript()
    ensures ExtensionOf("a/b/script.js") == Some("js")
  {
    assert "a/b/script.js" == "a/b/script" + ['.'] + "js";
    ExtensionOfStemDotExt("a/b/script", "js");
    LowerCaseFixpoint("js");
  }

  lemma ExtensionOfScriptWithQuery()
    ensures ExtensionOf("a/b/script.js?x=1") == Some("js")
  {
    assert "a/b/script.js?x=1" == "a/b/script.js" + ['?'] + "x=1";
    QueryIgnored("a/b/script.js", "x=1");
    ExtensionOfScript();
  }

  lemma ExtensionOfNoDot()
    ensures ExtensionOf("noext") == None
  {
    var name := "noext";
    assert '?' !in name && '.' !in name;
    assert IndexOf(name, '?') == -1 && LastIndexOf(name, '.') == -1;
  }

  lemma ExtensionOfUpperCase()
    ensures ExtensionOf("a.B") == Some("b")
  {
    assert "a.B" == "a" + ['.'] + "B";
    ExtensionOfStemDotExt("a", "B");
    assert ToLowerCase("B") == "b";
  }

  lemma ExtensionOfDotInDirectory()
    ensures ExtensionOf("d.v/x") == Some("v/x")
  {
    assert "d.v/x" == "d" + ['.'] + "v/x";
    ExtensionOfStemDotExt("d", "v/x");
    LowerCaseFixpoint("v/x");
  }
}
