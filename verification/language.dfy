/**
 Choosing the highlighting language of a file from its path
 (`inferLanguageFromPath`, `github.js` lines 38-60) and the class the code
 element receives from it (`highlightAndNumber`, line 65).
 */
module Language {
  import opened Wrappers
  import opened Text

  /** The extension table of lines 40-58. */
  const Languages: map<string, string> := map[
    "js" := "javascript",
    "cjs" := "javascript",
    "mjs" := "javascript",
    "ts" := "typescript",
    "java" := "java",
    "py" := "python",
    "md" := "markdown",
    "json" := "json",
    "yml" := "yaml",
    "yaml" := "yaml",
    "xml" := "xml",
    "html" := "xml",
    "css" := "css",
    "sh" := "bash",
    "bash" := "bash",
    "gradle" := "gradle",
    "properties" := "properties"
  ]

  /** The extension is the text after the last `.` of the whole path (not
      just of its file name), lower-cased; a path without a dot is its own
      extension. */
  function Extension(path: string): (e: string)
    ensures |e| <= |path|
    ensures e == ToLower(path[|path| - |e|..])
    ensures '.' !in e
    ensures |e| == |path| || path[|path| - |e| - 1] == '.'
  {
    LastPieceIsSuffix(path, '.');
    var pieces := Split(path, '.');
    var last := pieces[|pieces| - 1];
    LowerDots(last);
    ToLower(last)
  }

  /** The language hint for a path: the table entry for its extension, or
      the empty string when the table has none. */
  function InferLanguage(path: string): (r: string)
    ensures r == "" || r in Languages.Values
    ensures r != "" <==> Extension(path) in Languages
    ensures Extension(path) in Languages ==> r == Languages[Extension(path)]
  {
    var e := Extension(path);
    if e in Languages then Languages[e] else ""
  }

  /** The class of the code element: `language-<hint>` for a non-empty hint,
      no class at all otherwise. */
  function CodeClass(hint: string): (r: Option<string>)
    ensures r.Some? <==> hint != ""
    ensures r.Some? ==> |r.value| > |"language-"| && r.value[..|"language-"|] == "language-"
    ensures r.Some? ==> r.value[|"language-"|..] == hint
  {
    if hint != "" then Some("language-" + hint) else None
  }

  // ----- properties ---------------------------------------------------------

  lemma LowerDots(s: string)
    ensures '.' in ToLower(s) <==> '.' in s
  {
    if '.' in s {
      var i :| 0 <= i < |s| && s[i] == '.';
      assert ToLower(s)[i] == '.';
    }
    if '.' in ToLower(s) {
      var i :| 0 <= i < |s| && ToLower(s)[i] == '.';
      assert s[i] == '.';
    }
  }

  lemma LowerSlice(s: string, k: nat)
    requires k <= |s|
    ensures ToLower(s)[k..] == ToLower(s[k..])
  {
  }

  lemma LowerTwice(s: string)
    ensures ToLower(ToLower(s)) == ToLower(s)
  {
  }

  /** The dot-free tail after the last dot is determined by its length
      alone, and only one length qualifies. */
  lemma SuffixLengthUnique(s: string, a: nat, b: nat)
    requires a <= |s| && b <= |s|
    requires '.' !in s[|s| - a..] && '.' !in s[|s| - b..]
    requires a == |s| || s[|s| - a - 1] == '.'
    requires b == |s| || s[|s| - b - 1] == '.'
    ensures a == b
  {
  }

  /** The case of the path never matters: lower-casing it first gives the same
      extension. */
  lemma ExtensionIgnoresCase(path: string)
    ensures Extension(ToLower(path)) == Extension(path)
  {
    var lp := ToLower(path);
    var e1 := Extension(path);
    var e2 := Extension(lp);
    var k1 := |path| - |e1|;
    var k2 := |lp| - |e2|;
    LowerSlice(path, k1);
    LowerSlice(path, k2);
    LowerDots(path[k1..]);
    LowerDots(path[k2..]);
    LowerTwice(path[k2..]);
    assert '.' !in lp[k1..];
    assert k1 > 0 ==> lp[k1 - 1] == '.';
    SuffixLengthUnique(lp, |e1|, |e2|);
  }

  lemma InferIgnoresCase(path: string)
    ensures InferLanguage(ToLower(path)) == InferLanguage(path)
  {
    ExtensionIgnoresCase(path);
  }

  /** A class always names a language of the table. */
  lemma ClassNamesKnownLanguage(path: string)
    ensures CodeClass(InferLanguage(path)) == None ||
      exists ext :: ext in Languages && CodeClass(InferLanguage(path)) == Some("language-" + Languages[ext])
  {
  }

  lemma {:induction false} ExtensionOfTwo(path: string, a: string, b: string)
    requires path == a + "." + b
    requires '.' !in a && '.' !in b
    ensures Extension(path) == ToLower(b)
  {
    assert Join([a, b], '.') == path;
    SplitJoin([a, b], '.');
  }

  lemma {:induction false} ExtensionOfOne(a: string)
    requires '.' !in a
    ensures Extension(a) == ToLower(a)
  {
    SplitJoin([a], '.');
  }

  // Small facts about literals, kept as separate lemmas so that each example
  // below sees only the one it needs.
  lemma NoKeyOfLength8() ensures forall k :: k in Languages ==> |k| != 8 {}
  lemma LowerTs() ensures ToLower("ts") == "ts" {}
  lemma LowerJava() ensures ToLower("JAVA") == "java" {}
  lemma LowerSh() ensures ToLower("SH") == "sh" {}

  /** The extension decides regardless of case. */
  lemma InferTypeScript()
    ensures InferLanguage("src/app.ts") == "typescript"
  {
    ExtensionOfTwo("src/app.ts", "src/app", "ts");
    LowerTs();
  }

  lemma InferUpperCase()
    ensures InferLanguage("Main.JAVA") == "java"
  {
    ExtensionOfTwo("Main.JAVA", "Main", "JAVA");
    LowerJava();
  }

  /** A path without a dot is looked up whole: a top-level file named `SH`
      counts as a shell script ... */
  lemma InferWholeName()
    ensures InferLanguage("SH") == "bash"
  {
    ExtensionOfOne("SH");
    LowerSh();
  }

  /** ... while `Makefile` gets no hint and so no class. */
  lemma InferNoHint()
    ensures CodeClass(InferLanguage("Makefile")) == None
  {
    ExtensionOfOne("Makefile");
    NoKeyOfLength8();
  }

  /** A dot in a directory name makes the rest of the path the extension. */
  lemma InferDottedDirectory()
    ensures InferLanguage("v1.2/README") == ""
  {
    ExtensionOfTwo("v1.2/README", "v1", "2/README");
    NoKeyOfLength8();
  }

  // ----- the lookup as written ----------------------------------------------

  /** What `String(Object)` gives: the source text of the `Object` function. */
  const ObjectSource := "function Object() { [native code] }"

  /** The two names every plain object inherits that are already lower case,
      with the text each becomes inside a template string. */
  const Inherited: map<string, string> := map[
    "constructor" := ObjectSource,
    "__proto__" := "[object Object]"
  ]

  /** Line 59 as written: `map[ext]` also finds what the table object
      inherits, and the value found is truthy, so it is returned as the
      hint. */
  function InferLanguageAsWritten(path: string): (r: string)
    ensures Extension(path) !in Inherited ==> r == InferLanguage(path)
    ensures Extension(path) in Inherited ==> r != "" && forall e :: e in Languages ==> Languages[e] != r
  {
    var e := Extension(path);
    TableNamesShort();
    InheritedNamesLong();
    InheritedNotInTable();
    if e in Languages then Languages[e]
    else if e in Inherited then Inherited[e]
    else ""
  }

  /** Neither inherited name is an extension of the table. */
  lemma InheritedNotInTable()
    ensures forall e :: e in Inherited ==> e !in Languages
  {
    assert forall k :: k in Languages ==> |k| <= 6 || |k| == 10;
    assert |"constructor"| == 11 && |"__proto__"| == 9;
  }

  /** No language name in the table is longer than ten characters ... */
  lemma TableNamesShort()
    ensures forall e :: e in Languages ==> |Languages[e]| <= 10
  {
  }

  /** ... and both inherited texts are longer. */
  lemma InheritedNamesLong()
    ensures forall e :: e in Inherited ==> |Inherited[e]| > 10
  {
    assert |ObjectSource| == 35 && |"[object Object]"| == 15;
  }

  lemma LowerConstructor() ensures ToLower("constructor") == "constructor" {}
  lemma ConstructorNotInTable() ensures "constructor" !in Languages {}

  lemma ExtensionConstructor()
    ensures Extension("x.constructor") == "constructor"
  {
    ExtensionOfTwo("x.constructor", "x", "constructor");
    LowerConstructor();
  }

  /** A file named `x.constructor` gets a hint made of the source text of
      the `Object` function, where the own-property lookup of
      `InferLanguage` gives none ... */
  lemma ConstructorExtensionLeaks()
    ensures InferLanguageAsWritten("x.constructor") == ObjectSource
    ensures InferLanguage("x.constructor") == ""
  {
    ExtensionConstructor();
    ConstructorNotInTable();
  }

  /** ... and so the code element gets a class that names no language. */
  lemma ConstructorClass()
    ensures CodeClass(InferLanguageAsWritten("x.constructor")) == Some("language-" + ObjectSource)
    ensures CodeClass(InferLanguage("x.constructor")) == None
  {
    ConstructorExtensionLeaks();
  }
}
