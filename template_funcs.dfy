/**
 * The two dot-segment helpers that runtemplate registers in the template's
 * function map: `splitDotFirst` and `splitDotLast`. Both split their
 * argument on "." with Go's `strings.Split` and pick one field.
 */
module TemplateFuncs {
  import opened GoStrings

  /**
   * `splitDotFirst`: the text before the first ".", or the whole string
   * when it has none (for "package.Type", the package name).
   */
  function SplitDotFirst(s: string): (first: string)
    ensures first <= s
    ensures '.' !in first
    ensures |first| < |s| ==> s[|first|] == '.'
  {
    var parts := Split(s, '.');
    SplitFirstField(s, '.');
    parts[0]
  }

  /**
   * `splitDotLast`: the text after the last ".", or the whole string when
   * it has none (for "package.Type", the type name).
   */
  function SplitDotLast(s: string): (last: string)
    ensures IsSuffix(last, s)
    ensures '.' !in last
    ensures |last| < |s| ==> s[|s| - |last| - 1] == '.'
  {
    var parts := Split(s, '.');
    SplitLastField(s, '.');
    parts[|parts| - 1]
  }

  /**
   * The contract of SplitDotFirst pins its result down: any other prefix
   * of `s` without a dot that reaches a dot or the end is the same string.
   */
  lemma SplitDotFirstIsFirstField(s: string, t: string)
    requires IsFirstField(t, s, '.')
    ensures SplitDotFirst(s) == t
  {
    FirstFieldUnique(s, '.', SplitDotFirst(s), t);
  }

  /** Likewise for SplitDotLast and suffixes. */
  lemma SplitDotLastIsLastField(s: string, t: string)
    requires IsLastField(t, s, '.')
    ensures SplitDotLast(s) == t
  {
    LastFieldUnique(s, '.', SplitDotLast(s), t);
  }

  /** A string without a dot is returned unchanged by both helpers, and only such a string. */
  lemma NoDotUnchanged(s: string)
    ensures SplitDotFirst(s) == s <==> '.' !in s
    ensures SplitDotLast(s) == s <==> '.' !in s
  {
    if '.' !in s {
      SplitDotFirstIsFirstField(s, s);
      SplitDotLastIsLastField(s, s);
    }
  }

  /** For a dotted name `p.q` with dot-free parts, the helpers give `p` and `q`. */
  lemma {:induction false} DottedName(p: string, q: string)
    requires '.' !in p && '.' !in q
    ensures SplitDotFirst(p + "." + q) == p
    ensures SplitDotLast(p + "." + q) == q
  {
    var s := p + "." + q;
    assert s[..|p|] == p && s[|p|] == '.';
    SplitDotFirstIsFirstField(s, p);
    assert s[|s| - |q|..] == q && s[|s| - |q| - 1] == '.';
    SplitDotLastIsLastField(s, q);
  }

  /** The example of the doc comments: "package.Type". */
  lemma PackageTypeExample()
    ensures SplitDotFirst("package.Type") == "package"
    ensures SplitDotLast("package.Type") == "Type"
  {
    assert "package.Type" == "package" + "." + "Type";
    DottedName("package", "Type");
  }
}
