# runtemplate: argument handling and dot-segment helpers

runtemplate renders a Go `text/template` file with values taken from its
command line: `runtemplate <templatePath> <outPath> [key=value ...]`. This
project models the string logic of its `main` function in Dafny:

- **The context builder** (`ContextArgs`). The context map is seeded with
  `OutFile` (the output path) and `TemplateFile` (the template path). The
  remaining arguments are then walked from left to right. An argument
  without `=` stops the run with an error. Otherwise the argument is split
  on `=` and field 1 is stored under field 0. `BuildContext` is that loop,
  written as a method over a local `map<string, string>`. It is proved equal
  to the specification function `ContextOf`. The lemmas about `ContextOf`
  state when it fails, which error it reports, its exact key set, the
  value of every key, and that the last occurrence of a key wins.
- **The dot-segment helpers** (`TemplateFuncs`): `splitDotFirst` and
  `splitDotLast` from the template's function map.
- **Go's `strings.Split` for a one-character separator** (`GoStrings`),
  which both pieces use. It is proved to be the exact inverse of
  `strings.Join` on separator-free fields. It is also proved to return at
  least one field, one more than the separators in the input, none of them
  holding the separator. Its first and last fields are characterised as well.

Behaviour kept as the code has it:

- The value of an argument is field 1 of a split on **every** `=`. So
  `a=b=c` stores `b` under `a`, and the text after a second `=` is lost
  (`SecondEqualsTruncates`). The program is not changed to split on the
  first `=` only.
- `k=` stores the empty value and `=v` the empty key.
- With fewer than two arguments, the Go program fails with an
  index-out-of-range panic at runtemplate.go:26-27. The model returns
  `Err(TooFewArguments)` instead, so every input is handled.
- `os.Exit(1)` after a malformed argument becomes `Err(NotKeyValue(arg))`.

Strings are `seq<char>`. Go splits byte strings, but `=` and `.` are ASCII.
So splitting the UTF-8 bytes and splitting the characters give the same fields.

## Model

| member | source | states |
|---|---|---|
| `GoStrings.Split` | runtemplate.go:40 | `strings.Split` on one separator never returns an empty list of fields |
| `GoStrings.SplitFieldsHaveNoSeparator` | runtemplate.go:40 | no field returned by the split contains the separator |
| `GoStrings.SplitCount` | runtemplate.go:40 | the split returns one field more than there are separators in the input |
| `GoStrings.SplitFirstField` | runtemplate.go:61-62 | the first field is a prefix of the input without the separator, ending at the first separator or at the end |
| `GoStrings.SplitLastField` | runtemplate.go:68-69 | the last field is a suffix of the input without the separator, starting after the last separator or at the start |
| `GoStrings.JoinLastField` | runtemplate.go:68-69 | the last of separator-free fields is the last field of their join |
| `GoStrings.JoinSplit` | runtemplate.go:61 | joining the fields of a split with the separator gives back the original string |
| `GoStrings.SplitJoin` | runtemplate.go:68 | splitting a join of separator-free fields gives back those fields, so the split loses nothing and invents nothing |
| `GoStrings.FirstFieldUnique` | runtemplate.go:61-62 | only one string is the first field of a string, so the first-field characterisation determines the result |
| `GoStrings.LastFieldUnique` | runtemplate.go:68-69 | only one string is the last field of a string |
| `TemplateFuncs.SplitDotFirst` | runtemplate.go:57-63 | the result is a prefix of the input, contains no ".", and is the whole input or is followed by a "." |
| `TemplateFuncs.SplitDotLast` | runtemplate.go:64-70 | the result is a suffix of the input, contains no ".", and is the whole input or is preceded by a "." |
| `TemplateFuncs.SplitDotFirstIsFirstField` | runtemplate.go:57-63 | any dot-free prefix that reaches a "." or the end is exactly what `splitDotFirst` returns |
| `TemplateFuncs.SplitDotLastIsLastField` | runtemplate.go:64-70 | any dot-free suffix that starts after a "." or at the start is exactly what `splitDotLast` returns |
| `TemplateFuncs.NoDotUnchanged` | runtemplate.go:60-70 | each helper returns its input unchanged if and only if the input has no "." |
| `TemplateFuncs.DottedName` | runtemplate.go:57-70 | for `p.q` with dot-free `p` and `q`, `splitDotFirst` gives `p` and `splitDotLast` gives `q` |
| `TemplateFuncs.PackageTypeExample` | runtemplate.go:59-66 | "package.Type" gives "package" and "Type" |
| `ContextArgs.KeyOf` | runtemplate.go:40-41 | the stored key is the text before the first "=" of the argument |
| `ContextArgs.ValueOf` | runtemplate.go:40-41 | the stored value is the text after the first "=" up to the second "=" or the end |
| `ContextArgs.ValueIsSecondField` | runtemplate.go:40-41 | a split of an argument holding "=" has at least two fields, so index 1 is always in range |
| `ContextArgs.BuildContext` | runtemplate.go:22-42 | the argument loop of `main` produces exactly `ContextOf(args)`: `Err(TooFewArguments)` for fewer than two arguments, the first malformed argument as the error, or the built context |
| `ContextArgs.ApplyFailsIff` | runtemplate.go:35-39 | writing the arguments into a context fails exactly when one of them has no "=" |
| `ContextArgs.ApplyFirstBad` | runtemplate.go:35-39 | the error names the first argument without "=" |
| `ContextArgs.ApplyKeys` | runtemplate.go:35-42 | after writing, the keys are the starting keys plus the parsed keys, nothing else |
| `ContextArgs.ParsedKeysCons` | runtemplate.go:35-41 | the parsed keys of a list are its first argument's key plus the parsed keys of the rest |
| `ContextArgs.ApplyKeeps` | runtemplate.go:35-42 | an entry no argument's key names keeps its starting value |
| `ContextArgs.ApplyLastWins` | runtemplate.go:35-42 | a key gets the value of its last occurrence |
| `ContextArgs.ContextFailsIff` | runtemplate.go:24-39 | no context is built exactly when fewer than two arguments are given or an argument after them has no "=" |
| `ContextArgs.ContextFirstBad` | runtemplate.go:35-39 | the reported error names the first argument after the two paths that has no "=" |
| `ContextArgs.ContextKeys` | runtemplate.go:22-42 | the context's keys are exactly `OutFile`, `TemplateFile` and the keys of the `key=value` arguments |
| `ContextArgs.ContextReserved` | runtemplate.go:26-31 | `TemplateFile` maps to the first argument and `OutFile` to the second unless a `key=value` argument uses that key |
| `ContextArgs.ContextLastWins` | runtemplate.go:35-42 | a key given by `key=value` arguments maps to the value of its last occurrence, reserved keys included |
| `ContextArgs.EmptyKeyOrValue` | runtemplate.go:40-41 | `k=` stores "" under `k`; `=v` stores `v` under "" |
| `ContextArgs.SecondEqualsTruncates` | runtemplate.go:40-41 | for `key=value=tail` the key is `key` and the value is `value`: everything from the second "=" on is dropped |
| `ContextArgs.SecondEqualsExample` | runtemplate.go:40-41 | `a=b=c` stores `b` under `a` |
| `ContextArgs.KeyValueRoundTrip` | runtemplate.go:40-41 | an argument `key=value` with no "=" in key or value is read back as that key and that value |

## Left out

- Reading the template file (runtemplate.go:46-50), creating and closing the output file (runtemplate.go:75-80) and the success message (runtemplate.go:88) are operating-system I/O.
- Compiling and executing the template (runtemplate.go:73, 82-86) is Go's `text/template` engine, which is not part of this model. The error returned by `Parse` at runtemplate.go:73 is overwritten at runtemplate.go:75 without being checked. A malformed template therefore reaches `Execute` with whatever `Parse` returned.
- The `title`, `lower` and `upper` helpers (runtemplate.go:54-56) wrap Go's Unicode case tables, which are not part of this model.
- The printed error texts and exit status are not modelled. A failure is the `Err` variant of `BuildResult`.
- `GoStrings.Split` models `strings.Split` for a one-character separator only, which is the only kind runtemplate passes.
