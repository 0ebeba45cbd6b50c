/**
 * How runtemplate turns its command line `templatePath outPath key=value...`
 * into the context map handed to the template: two reserved entries, then
 * every `key=value` argument written in from left to right.
 */
module ContextArgs {
  import opened GoStrings

  /** The context: a flat map from string keys to string values. */
  type Context = map<string, string>

  /** Reserved key holding the output path. */
  const OutFileKey: string := "OutFile"

  /** Reserved key holding the template path. */
  const TemplateFileKey: string := "TemplateFile"

  /** Why no context is built. Both end the run with an error. */
  datatype ArgError =
    | TooFewArguments           // fewer than the two positional paths
    | NotKeyValue(arg: string)  // an argument after them without "="

  datatype BuildResult = Ok(context: Context) | Err(error: ArgError)

  /**
   * The key of a `key=value` argument: `Split(arg, "=")[0]`, which is the
   * text before the first "=".
   */
  function KeyOf(arg: string): (key: string)
    requires '=' in arg
    ensures key <= arg && |key| < |arg|
    ensures '=' !in key && arg[|key|] == '='
  {
    var keyVal := Split(arg, '=');
    SplitFirstField(arg, '=');
    keyVal[0]
  }

  /**
   * The value of a `key=value` argument: `Split(arg, "=")[1]`, which is the
   * text after the first "=" up to the second "=" or the end. Whatever
   * follows a second "=" is dropped.
   */
  function ValueOf(arg: string): (value: string)
    requires '=' in arg
    ensures IsFirstField(value, arg[|KeyOf(arg)| + 1..], '=')
  {
    var keyVal := Split(arg, '=');
    ValueIsSecondField(arg);
    SplitFirstField(arg[|KeyOf(arg)| + 1..], '=');
    keyVal[1]
  }

  /** Field 1 of the split is field 0 of the text after the first "=". */
  lemma ValueIsSecondField(arg: string)
    requires '=' in arg
    ensures |Split(arg, '=')| >= 2
    ensures Split(arg, '=')[1] == Split(arg[|KeyOf(arg)| + 1..], '=')[0]
  {
    SplitAtFirst(arg, '=');
  }

  /** The map holding only the two reserved entries (runtemplate.go:30-31). */
  function Seed(templatePath: string, outPath: string): Context {
    map[OutFileKey := outPath, TemplateFileKey := templatePath]
  }

  /**
   * Writes the `key=value` arguments `kvs` into `context` from left to
   * right, stopping at the first argument that has no "=".
   */
  function ApplyArgs(context: Context, kvs: seq<string>): BuildResult
    decreases |kvs|
  {
    if kvs == [] then Ok(context)
    else if '=' !in kvs[0] then Err(NotKeyValue(kvs[0]))
    else ApplyArgs(context[KeyOf(kvs[0]) := ValueOf(kvs[0])], kvs[1..])
  }

  /** The outcome of the argument handling of `main` for `args = os.Args[1:]`. */
  function ContextOf(args: seq<string>): BuildResult {
    if |args| < 2 then Err(TooFewArguments)
    else ApplyArgs(Seed(args[0], args[1]), args[2..])
  }

  /**
   * The argument loop of `main`: seeds the reserved keys, then walks the
   * remaining arguments, rejecting one without "=" and otherwise storing
   * field 1 of its split under field 0.
   */
  method BuildContext(args: seq<string>) returns (r: BuildResult)
    ensures r == ContextOf(args)
  {
    if |args| < 2 {
      return Err(TooFewArguments);
    }
    var templatePath := args[0];
    var outPath := args[1];
    var context: Context := map[];
    context := context[OutFileKey := outPath];
    context := context[TemplateFileKey := templatePath];
    var i := 2;
    while i < |args|
      invariant 2 <= i <= |args|
      invariant ApplyArgs(context, args[i..]) == ContextOf(args)
    {
      var arg := args[i];
      if '=' !in arg {
        return Err(NotKeyValue(arg));
      }
      var keyVal := Split(arg, '=');
      ValueIsSecondField(arg);
      context := context[keyVal[0] := keyVal[1]];
      assert args[i..][1..] == args[i + 1..];
      i := i + 1;
    }
    return Ok(context);
  }

  // ---------------------------------------------------------------------
  // Properties of ApplyArgs, for any starting context

  /** Applying fails exactly when some argument lacks "=". */
  lemma {:induction false} ApplyFailsIff(context: Context, kvs: seq<string>)
    ensures ApplyArgs(context, kvs).Err? <==> exists k :: 0 <= k < |kvs| && '=' !in kvs[k]
    decreases |kvs|
  {
    if kvs != [] && '=' in kvs[0] {
      var next := context[KeyOf(kvs[0]) := ValueOf(kvs[0])];
      ApplyFailsIff(next, kvs[1..]);
      if exists k :: 0 <= k < |kvs| && '=' !in kvs[k] {
        var k :| 0 <= k < |kvs| && '=' !in kvs[k];
        assert kvs[1..][k - 1] == kvs[k];
      }
    }
  }

  /** The error names the first argument that lacks "=". */
  lemma {:induction false} ApplyFirstBad(context: Context, kvs: seq<string>, k: nat)
    requires k < |kvs| && '=' !in kvs[k]
    requires forall j :: 0 <= j < k ==> '=' in kvs[j]
    ensures ApplyArgs(context, kvs) == Err(NotKeyValue(kvs[k]))
    decreases k
  {
    if k > 0 {
      ApplyFirstBad(context[KeyOf(kvs[0]) := ValueOf(kvs[0])], kvs[1..], k - 1);
    }
  }

  /** On success the keys are those of the start plus the parsed ones; nothing else. */
  lemma {:induction false} ApplyKeys(context: Context, kvs: seq<string>)
    requires ApplyArgs(context, kvs).Ok?
    ensures ApplyArgs(context, kvs).context.Keys
         == context.Keys + (set a | a in kvs && '=' in a :: KeyOf(a))
    decreases |kvs|
  {
    if kvs != [] {
      var next := context[KeyOf(kvs[0]) := ValueOf(kvs[0])];
      ApplyKeys(next, kvs[1..]);
      ParsedKeysCons(kvs);
    }
  }

  /** The parsed keys of a list are its head's key and those of its tail. */
  lemma ParsedKeysCons(kvs: seq<string>)
    requires kvs != [] && '=' in kvs[0]
    ensures (set a | a in kvs && '=' in a :: KeyOf(a))
         == {KeyOf(kvs[0])} + (set a | a in kvs[1..] && '=' in a :: KeyOf(a))
  {
    assert forall a :: a in kvs <==> a == kvs[0] || a in kvs[1..] by {
      assert kvs == [kvs[0]] + kvs[1..];
    }
  }

  /** An entry of the start that no argument's key names keeps its value. */
  lemma {:induction false} ApplyKeeps(context: Context, kvs: seq<string>, key: string)
    requires ApplyArgs(context, kvs).Ok?
    requires key in context
    requires forall j :: 0 <= j < |kvs| && '=' in kvs[j] ==> KeyOf(kvs[j]) != key
    ensures key in ApplyArgs(context, kvs).context
    ensures ApplyArgs(context, kvs).context[key] == context[key]
    decreases |kvs|
  {
    if kvs != [] {
      var next := context[KeyOf(kvs[0]) := ValueOf(kvs[0])];
      forall j | 0 <= j < |kvs[1..]| && '=' in kvs[1..][j]
        ensures KeyOf(kvs[1..][j]) != key
      {
        assert kvs[1..][j] == kvs[j + 1];
      }
      ApplyKeeps(next, kvs[1..], key);
    }
  }

  /** The value stored for a key is the one of its last occurrence. */
  lemma {:induction false} ApplyLastWins(context: Context, kvs: seq<string>, i: nat)
    requires ApplyArgs(context, kvs).Ok?
    requires i < |kvs| && '=' in kvs[i]
    requires forall j :: i < j < |kvs| && '=' in kvs[j] ==> KeyOf(kvs[j]) != KeyOf(kvs[i])
    ensures KeyOf(kvs[i]) in ApplyArgs(context, kvs).context
    ensures ApplyArgs(context, kvs).context[KeyOf(kvs[i])] == ValueOf(kvs[i])
    decreases i
  {
    var next := context[KeyOf(kvs[0]) := ValueOf(kvs[0])];
    if i == 0 {
      forall j | 0 <= j < |kvs[1..]| && '=' in kvs[1..][j]
        ensures KeyOf(kvs[1..][j]) != KeyOf(kvs[0])
      {
        assert kvs[1..][j] == kvs[j + 1];
      }
      ApplyKeeps(next, kvs[1..], KeyOf(kvs[0]));
    } else {
      assert kvs[1..][i - 1] == kvs[i];
      forall j | i - 1 < j < |kvs[1..]| && '=' in kvs[1..][j]
        ensures KeyOf(kvs[1..][j]) != KeyOf(kvs[1..][i - 1])
      {
        assert kvs[1..][j] == kvs[j + 1];
      }
      ApplyLastWins(next, kvs[1..], i - 1);
    }
  }

  // ---------------------------------------------------------------------
  // Properties of the whole argument handling

  /**
   * No context is built exactly when a positional path is missing or an
   * argument after them has no "=".
   */
  lemma ContextFailsIff(args: seq<string>)
    ensures ContextOf(args).Err?
        <==> |args| < 2 || exists i :: 2 <= i < |args| && '=' !in args[i]
  {
    if |args| >= 2 {
      ApplyFailsIff(Seed(args[0], args[1]), args[2..]);
      if exists i :: 2 <= i < |args| && '=' !in args[i] {
        var i :| 2 <= i < |args| && '=' !in args[i];
        assert args[2..][i - 2] == args[i];
      }
      if exists k :: 0 <= k < |args[2..]| && '=' !in args[2..][k] {
        var k :| 0 <= k < |args[2..]| && '=' !in args[2..][k];
        assert args[2..][k] == args[k + 2];
      }
    }
  }

  /** The error reported is the first argument after the paths that has no "=". */
  lemma ContextFirstBad(args: seq<string>, i: nat)
    requires 2 <= i < |args| && '=' !in args[i]
    requires forall j :: 2 <= j < i ==> '=' in args[j]
    ensures ContextOf(args) == Err(NotKeyValue(args[i]))
  {
    forall j | 0 <= j < i - 2
      ensures '=' in args[2..][j]
    {
      assert args[2..][j] == args[j + 2];
    }
    ApplyFirstBad(Seed(args[0], args[1]), args[2..], i - 2);
  }

  /**
   * The keys of a built context are exactly "OutFile", "TemplateFile" and
   * the keys of the `key=value` arguments.
   */
  lemma ContextKeys(args: seq<string>)
    requires ContextOf(args).Ok?
    ensures ContextOf(args).context.Keys
         == {OutFileKey, TemplateFileKey} + (set a | a in args[2..] && '=' in a :: KeyOf(a))
  {
    ApplyKeys(Seed(args[0], args[1]), args[2..]);
  }

  /**
   * "TemplateFile" maps to the template path and "OutFile" to the output
   * path unless some `key=value` argument uses that key.
   */
  lemma ContextReserved(args: seq<string>)
    requires ContextOf(args).Ok?
    ensures TemplateFileKey in ContextOf(args).context && OutFileKey in ContextOf(args).context
    ensures (forall i :: 2 <= i < |args| && '=' in args[i] ==> KeyOf(args[i]) != TemplateFileKey)
        ==> ContextOf(args).context[TemplateFileKey] == args[0]
    ensures (forall i :: 2 <= i < |args| && '=' in args[i] ==> KeyOf(args[i]) != OutFileKey)
        ==> ContextOf(args).context[OutFileKey] == args[1]
  {
    var seed := Seed(args[0], args[1]);
    var kvs := args[2..];
    ContextKeys(args);
    forall key | key in seed.Keys
        && (forall i :: 2 <= i < |args| && '=' in args[i] ==> KeyOf(args[i]) != key)
      ensures key in ContextOf(args).context
      ensures ContextOf(args).context[key] == seed[key]
    {
      forall j | 0 <= j < |kvs| && '=' in kvs[j]
        ensures KeyOf(kvs[j]) != key
      {
        assert kvs[j] == args[j + 2];
      }
      ApplyKeeps(seed, kvs, key);
    }
  }

  /**
   * The value of a key given by a `key=value` argument is the value of its
   * last occurrence, even for the reserved keys.
   */
  lemma ContextLastWins(args: seq<string>, i: nat)
    requires ContextOf(args).Ok?
    requires 2 <= i < |args| && '=' in args[i]
    requires forall j :: i < j < |args| && '=' in args[j] ==> KeyOf(args[j]) != KeyOf(args[i])
    ensures KeyOf(args[i]) in ContextOf(args).context
    ensures ContextOf(args).context[KeyOf(args[i])] == ValueOf(args[i])
  {
    var kvs := args[2..];
    assert kvs[i - 2] == args[i];
    forall j | i - 2 < j < |kvs| && '=' in kvs[j]
      ensures KeyOf(kvs[j]) != KeyOf(kvs[i - 2])
    {
      assert kvs[j] == args[j + 2];
    }
    ApplyLastWins(Seed(args[0], args[1]), kvs, i - 2);
  }

  // ---------------------------------------------------------------------
  // How single arguments are read

  /** "k=" stores the empty value, "=v" the empty key. */
  lemma EmptyKeyOrValue()
    ensures KeyOf("k=") == "k" && ValueOf("k=") == ""
    ensures KeyOf("=v") == "" && ValueOf("=v") == "v"
  {
    FirstFieldUnique("k=", '=', KeyOf("k="), "k");
    FirstFieldUnique("", '=', ValueOf("k="), "");
    FirstFieldUnique("=v", '=', KeyOf("=v"), "");
    FirstFieldUnique("v", '=', ValueOf("=v"), "v");
  }

  /**
   * An argument with a second "=" keeps only the text between the first
   * and the second "=" as its value; everything from the second "=" on is
   * lost.
   */
  lemma {:induction false} SecondEqualsTruncates(key: string, value: string, tail: string)
    requires '=' !in key && '=' !in value
    ensures '=' in key + "=" + value + "=" + tail
    ensures KeyOf(key + "=" + value + "=" + tail) == key
    ensures ValueOf(key + "=" + value + "=" + tail) == value
  {
    var arg := key + "=" + value + "=" + tail;
    assert arg[|key|] == '=';
    assert arg[..|key|] == key;
    FirstFieldUnique(arg, '=', KeyOf(arg), key);
    var rest := arg[|key| + 1..];
    assert rest == value + "=" + tail;
    assert rest[..|value|] == value && rest[|value|] == '=';
    FirstFieldUnique(rest, '=', ValueOf(arg), value);
  }

  /** The instance "a=b=c", which stores "b" under "a". */
  lemma SecondEqualsExample()
    ensures KeyOf("a=b=c") == "a" && ValueOf("a=b=c") == "b"
  {
    assert "a=b=c" == "a" + "=" + "b" + "=" + "c";
    SecondEqualsTruncates("a", "b", "c");
  }

  /**
   * For any key without "=" and any value without "=", the argument
   * `key=value` is read back as that key and that value.
   */
  lemma {:induction false} KeyValueRoundTrip(key: string, value: string)
    requires '=' !in key && '=' !in value
    ensures '=' in key + "=" + value
    ensures KeyOf(key + "=" + value) == key
    ensures ValueOf(key + "=" + value) == value
  {
    var arg := key + "=" + value;
    assert arg[|key|] == '=';
    assert arg[..|key|] == key;
    FirstFieldUnique(arg, '=', KeyOf(arg), key);
    assert arg[|key| + 1..] == value;
    FirstFieldUnique(value, '=', ValueOf(arg), value);
  }
}
