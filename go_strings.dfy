/**
 * The part of Go's `strings` package that runtemplate relies on, for a
 * separator of exactly one character: `strings.Index`, `strings.Split`
 * and, as Split's inverse, `strings.Join`.
 *
 * Go strings are byte strings. The only separators used are `=` and `.`,
 * both ASCII, so splitting a UTF-8 string on them byte by byte gives the
 * same fields as splitting its characters; strings are `seq<char>` here.
 */
module GoStrings {

  /** `t` is a suffix of `s`. */
  predicate IsSuffix(t: string, s: string) {
    |t| <= |s| && s[|s| - |t|..] == t
  }

  /**
   * `t` is the first field of `s` for separator `sep`: a prefix of `s`
   * holding no `sep`, which either is all of `s` or stops just before a `sep`.
   */
  predicate IsFirstField(t: string, s: string, sep: char) {
    t <= s && sep !in t && (|t| < |s| ==> s[|t|] == sep)
  }

  /**
   * `t` is the last field of `s` for separator `sep`: a suffix of `s`
   * holding no `sep`, which either is all of `s` or starts just after a `sep`.
   */
  predicate IsLastField(t: string, s: string, sep: char) {
    IsSuffix(t, s) && sep !in t && (|t| < |s| ==> s[|s| - |t| - 1] == sep)
  }

  /** Position of the first `c` in `s` (Go's `strings.Index` for a one-character needle). */
  function IndexOf(s: string, c: char): (i: nat)
    requires c in s
    ensures i < |s| && s[i] == c
    ensures c !in s[..i]
    decreases |s|
  {
    if s[0] == c then 0
    else
      var j := IndexOf(s[1..], c);
      assert s[..j + 1] == [s[0]] + s[1..][..j];
      j + 1
  }

  /**
   * Go's `strings.Split(s, string(sep))`: the fields of `s` between
   * occurrences of `sep`, in order. Like Go's, it never returns an empty
   * list: splitting "" gives [""], and a string without `sep` gives [s].
   */
  function Split(s: string, sep: char): (parts: seq<string>)
    ensures |parts| >= 1
    decreases |s|
  {
    if sep !in s then [s]
    else
      var i := IndexOf(s, sep);
      [s[..i]] + Split(s[i + 1..], sep)
  }

  /** One step of Split: the text before the first `sep`, then the fields of the rest. */
  lemma SplitAtFirst(s: string, sep: char)
    requires sep in s
    ensures Split(s, sep) == [s[..IndexOf(s, sep)]] + Split(s[IndexOf(s, sep) + 1..], sep)
  {
  }

  /** No field of Split contains the separator. */
  lemma {:induction false} SplitFieldsHaveNoSeparator(s: string, sep: char)
    ensures forall k :: 0 <= k < |Split(s, sep)| ==> sep !in Split(s, sep)[k]
    decreases |s|
  {
    if sep in s {
      var i := IndexOf(s, sep);
      SplitAtFirst(s, sep);
      SplitFieldsHaveNoSeparator(s[i + 1..], sep);
    }
  }

  /** Split returns one field more than there are separators in `s`. */
  lemma {:induction false} SplitCount(s: string, sep: char)
    ensures |Split(s, sep)| == multiset(s)[sep] + 1
    decreases |s|
  {
    if sep in s {
      var i := IndexOf(s, sep);
      SplitAtFirst(s, sep);
      SplitCount(s[i + 1..], sep);
      assert s == s[..i] + [s[i]] + s[i + 1..];
      assert multiset(s[..i])[sep] == 0;
    } else {
      assert multiset(s)[sep] == 0;
    }
  }

  /** The first field of Split runs up to the first `sep`, or is all of `s`. */
  lemma SplitFirstField(s: string, sep: char)
    ensures IsFirstField(Split(s, sep)[0], s, sep)
  {
    if sep in s {
      SplitAtFirst(s, sep);
    }
  }

  /** Go's `strings.Join(parts, string(sep))`. */
  function Join(parts: seq<string>, sep: char): string
    decreases |parts|
  {
    if |parts| == 0 then ""
    else if |parts| == 1 then parts[0]
    else parts[0] + [sep] + Join(parts[1..], sep)
  }

  /** Joining the fields back with the separator gives the original string. */
  lemma {:induction false} JoinSplit(s: string, sep: char)
    ensures Join(Split(s, sep), sep) == s
    decreases |s|
  {
    if sep in s {
      var i := IndexOf(s, sep);
      var rest := Split(s[i + 1..], sep);
      SplitAtFirst(s, sep);
      var parts := [s[..i]] + rest;
      assert parts[1..] == rest;
      assert Join(parts, sep) == s[..i] + [sep] + Join(rest, sep);
      JoinSplit(s[i + 1..], sep);
      assert s == s[..i] + [sep] + s[i + 1..];
    }
  }

  /** The last of separator-free fields is the last field of their join. */
  lemma {:induction false} JoinLastField(parts: seq<string>, sep: char)
    requires |parts| >= 1
    requires forall k :: 0 <= k < |parts| ==> sep !in parts[k]
    ensures IsLastField(parts[|parts| - 1], Join(parts, sep), sep)
    decreases |parts|
  {
    if |parts| > 1 {
      forall k | 0 <= k < |parts[1..]|
        ensures sep !in parts[1..][k]
      {
        assert parts[1..][k] == parts[k + 1];
      }
      JoinLastField(parts[1..], sep);
      assert parts[1..][|parts[1..]| - 1] == parts[|parts| - 1];
      LastFieldOfAppend(parts[0], sep, Join(parts[1..], sep), parts[|parts| - 1]);
    }
  }

  /** A last field of `tail` stays a last field when text and a `sep` are put before it. */
  lemma LastFieldOfAppend(front: string, sep: char, tail: string, t: string)
    requires IsLastField(t, tail, sep)
    ensures IsLastField(t, front + [sep] + tail, sep)
  {
    var s := front + [sep] + tail;
    assert s[|s| - |t|..] == tail[|tail| - |t|..];
    if |t| == |tail| {
      assert s[|s| - |t| - 1] == sep;
    } else {
      assert s[|s| - |t| - 1] == tail[|tail| - |t| - 1];
    }
  }

  /** The last field of Split starts after the last `sep`, or is all of `s`. */
  lemma SplitLastField(s: string, sep: char)
    ensures IsLastField(Split(s, sep)[|Split(s, sep)| - 1], s, sep)
  {
    SplitFieldsHaveNoSeparator(s, sep);
    JoinLastField(Split(s, sep), sep);
    JoinSplit(s, sep);
  }

  /**
   * Splitting a join of separator-free fields gives the fields back, so
   * Split is exactly the inverse of Join.
   */
  lemma {:induction false} SplitJoin(parts: seq<string>, sep: char)
    requires |parts| >= 1
    requires forall k :: 0 <= k < |parts| ==> sep !in parts[k]
    ensures Split(Join(parts, sep), sep) == parts
    decreases |parts|
  {
    if |parts| > 1 {
      var s := Join(parts, sep);
      var tail := Join(parts[1..], sep);
      assert s == parts[0] + [sep] + tail;
      assert s[|parts[0]|] == sep;
      assert sep in s;
      assert s[..|parts[0]|] == parts[0];
      assert IndexOf(s, sep) == |parts[0]|;
      assert s[|parts[0]| + 1..] == tail;
      SplitJoin(parts[1..], sep);
    }
  }

  /** At most one string is the first field of `s`. */
  lemma FirstFieldUnique(s: string, sep: char, t: string, u: string)
    requires IsFirstField(t, s, sep) && IsFirstField(u, s, sep)
    ensures t == u
  {
  }

  /** At most one string is the last field of `s`. */
  lemma LastFieldUnique(s: string, sep: char, t: string, u: string)
    requires IsLastField(t, s, sep) && IsLastField(u, s, sep)
    ensures t == u
  {
  }
}
