# Slang compiler and CLI core, modelled in Dafny

This project models three pieces of sequential logic from the CloudSlang
compiler and command-line tool, and proves properties of each.

- **Input-binding disambiguation** (`inputs_transformer.dfy`, module
  `InputsTransformer`). `InputsTransformer.transform` walks the raw YAML list
  of a flow's or operation's `inputs:` and turns each element into an
  `Input` binding:
  - a bare string becomes a reference to itself;
  - a one-entry map with a sigil-prefixed string becomes an inline expression;
  - a one-entry map with a map becomes the verbose form, with the
    `required`, `encrypted`, `override` and `default` sub-keys;
  - a one-entry map with any other non-null value becomes an inline default;
  - everything else is dropped.

  Raw YAML is the datatype `Raw`. A Java cast failure on a flag sub-key, and
  `iterator().next()` on an empty map, become `TransformError` outcomes.
  The `transform` loop is a method proved equal to the fold `TransformAll`.
- **Namespace index-then-filter** (`namespace_builder.dfy`, module
  `NamespaceBuilder`). `buildNamespace` runs in three steps:
  - it validates its arguments and flattens the classpath;
  - it indexes every `.yaml`/`.yml` file by the namespace the parser reports;
  - it maps each import alias of the compiled file to its namespace's entry.

  The filesystem is a tree of `FsNode`s. The YAML parser is a function
  parameter `parse: string -> SlangFile`. The three loops are methods, each
  proved equal to a function of its inputs. The properties are lemmas about
  those functions.
- **Property-reference substitution** (`slang_bootstrap.dfy`, module
  `SlangBootstrap`). `substitutePropertyReferences` collects the names of
  every `${NAME}` token, where the regular expression `\$\{([^${}]+)\}` gives
  the name's alphabet. It then replaces every occurrence of each token whose
  system property is non-empty. `loadUserProperties` runs it once per key.
  - The `matcher.find()` loop is a method proved to compute the function
    `VariableNames`. That function is in turn proved to be exactly the set of
    valid names whose token occurs in the value.
  - The replacement loop visits a `HashSet`, whose order Java leaves
    unspecified. The method records the order it used as a ghost sequence. It
    proves that this order lists each collected name exactly once and that
    the result is the passes applied in that order. Every lemma about
    substitution holds for any such order.

`wrappers.dfy` holds the `Option` and `Result` datatypes shared by the modules.

## Model

| member | source | states |
|---|---|---|
| InputsTransformer.Transform | score-lang-compiler/src/main/java/com/hp/score/lang/compiler/transformers/InputsTransformer.java:46-75 | the loop that appends one input per element computes exactly `TransformAll`, the error of the first failing element included |
| InputsTransformer.TransformAll | score-lang-compiler/src/main/java/com/hp/score/lang/compiler/transformers/InputsTransformer.java:47-74 | on success there are at most as many inputs as raw elements, and no input has both an expression and a default value |
| InputsTransformer.TransformKeepsOrder | score-lang-compiler/src/main/java/com/hp/score/lang/compiler/transformers/InputsTransformer.java:47-74 | the k-th output is the input of the k-th element that yields one; those positions increase strictly; every other element yields nothing |
| InputsTransformer.TransformFailsAtFirstError | score-lang-compiler/src/main/java/com/hp/score/lang/compiler/transformers/InputsTransformer.java:46-81 | the whole transformation succeeds iff every element does; on failure it reports the error of the first failing element |
| InputsTransformer.FailureIsFinal | score-lang-compiler/src/main/java/com/hp/score/lang/compiler/transformers/InputsTransformer.java:48-73 | once an element has thrown, elements after it do not change the outcome |
| InputsTransformer.TransformOne | score-lang-compiler/src/main/java/com/hp/score/lang/compiler/transformers/InputsTransformer.java:48-73 | the dispatch on one element: a string gives name = expression = the string; an empty map fails; a sigil-prefixed value gives the stripped expression, no default, required, not encrypted, not overridable; a map value gives exactly `PropInput`'s outcome; other non-null values give an inline default; null values and non-string, non-map elements give nothing |
| InputsTransformer.PropInput | score-lang-compiler/src/main/java/com/hp/score/lang/compiler/transformers/InputsTransformer.java:77-86 | succeeds iff the three flags are absent or boolean; `required` is true unless present and false; `encrypted` and `override` are false unless present and true; `default` selects the stripped expression, the default value, or expression = name when absent or null |
| InputsTransformer.CreatePropInput | score-lang-compiler/src/main/java/com/hp/score/lang/compiler/transformers/InputsTransformer.java:88-102 | keeps name and flags; a sigil-prefixed value gives the stripped expression and no default; another non-null value gives that default and no expression; null gives expression = name; never both |
| InputsTransformer.ReadFlag | score-lang-compiler/src/main/java/com/hp/score/lang/compiler/transformers/InputsTransformer.java:79-81 | a flag can be read iff the key is absent or holds a boolean; a failure names the input and the key |
| InputsTransformer.Lookup | score-lang-compiler/src/main/java/com/hp/score/lang/compiler/transformers/InputsTransformer.java:79-83 | `Map.get`: absent iff no entry has the key; a found value is the value of an entry with that key |
| InputsTransformer.LookupFirst | score-lang-compiler/src/main/java/com/hp/score/lang/compiler/transformers/InputsTransformer.java:79-83 | the value found is the one of the first entry carrying the key |
| InputsTransformer.ExtractExpression | score-lang-compiler/src/main/java/com/hp/score/lang/compiler/transformers/InputsTransformer.java:104-106 | removes exactly one leading sigil when present (the sigil followed by the result is the argument), and otherwise returns the argument unchanged |
| InputsTransformer.IsExpressionExact | score-lang-compiler/src/main/java/com/hp/score/lang/compiler/transformers/InputsTransformer.java:104-110 | a value is an expression iff it is a string made of the sigil followed by some text; stripping the sigil gives back that text, and putting it back gives the value |
| InputsTransformer.RefInput | score-lang-compiler/src/main/java/com/hp/score/lang/compiler/transformers/InputsTransformer.java:116-118 | a bare name binds an input of that name whose expression is the name itself, required, not encrypted, not overridable, with no default |
| InputsTransformer.InlineExpressionInput | score-lang-compiler/src/main/java/com/hp/score/lang/compiler/transformers/InputsTransformer.java:112-114 | an inline expression keeps the name, is required, not encrypted and not overridable, and has the sigil-stripped expression and no default |
| InputsTransformer.InlineDefaultValueInput | score-lang-compiler/src/main/java/com/hp/score/lang/compiler/transformers/InputsTransformer.java:120-122 | an inline constant has that constant as its default and no expression, and is required, not encrypted and not overridable |
| InputsTransformer.FirstEntryOnly | score-lang-compiler/src/main/java/com/hp/score/lang/compiler/transformers/InputsTransformer.java:54 | entries after the first one of a map element do not affect its outcome |
| InputsTransformer.InputsRegistration | score-lang-compiler/src/main/java/com/hp/score/lang/compiler/transformers/InputsTransformer.java:125-138 | the scopes are exactly before-executable, then before-task; both keys are null |
| NamespaceBuilder.BuildNamespace | score-lang-compiler/src/main/java/com/hp/score/lang/compiler/utils/NamespaceBuilder.java:44-54 | the validate, flatten, index and filter sequence computes exactly `Resolve` of the classpath, the imports of the compiled file and the extension list |
| NamespaceBuilder.FilterNonSlangFiles | score-lang-compiler/src/main/java/com/hp/score/lang/compiler/utils/NamespaceBuilder.java:56-67 | the loop computes `Flatten` with the extension property, defaulting to `yaml,yml,py` |
| NamespaceBuilder.SortByNamespace | score-lang-compiler/src/main/java/com/hp/score/lang/compiler/utils/NamespaceBuilder.java:69-97 | the loop computes the index built by appending each parsed yaml file to its namespace's list, in discovery order |
| NamespaceBuilder.FilterNonImportedFiles | score-lang-compiler/src/main/java/com/hp/score/lang/compiler/utils/NamespaceBuilder.java:99-108 | fails iff the index is empty; on success the keys are exactly the aliases and each alias maps to its target's entry, or to `None` when the target is not indexed |
| NamespaceBuilder.ListFiles | score-lang-compiler/src/main/java/com/hp/score/lang/compiler/utils/NamespaceBuilder.java:61 | every listed file carries one of the extensions, and every direct child file with one of them is listed |
| NamespaceBuilder.ListFilesExact | score-lang-compiler/src/main/java/com/hp/score/lang/compiler/utils/NamespaceBuilder.java:61 | the recursive listing of a directory holds a path iff it is the path of a file anywhere in the directory's subtree and carries one of the extensions |
| NamespaceBuilder.FlattenContents | score-lang-compiler/src/main/java/com/hp/score/lang/compiler/utils/NamespaceBuilder.java:56-67 | a path is in the flattened classpath iff it is a plain classpath entry, whatever its extension, or a file anywhere below a classpath directory that carries one of the listing extensions |
| NamespaceBuilder.Extension | score-lang-compiler/src/main/java/com/hp/score/lang/compiler/utils/NamespaceBuilder.java:75 | a non-empty extension is the text after a dot that ends the path, with no dot or separator in it; the extension is empty iff the path ends with a dot or every dot of the path is followed by a separator |
| NamespaceBuilder.DottedSuffixIsExtension | score-lang-compiler/src/main/java/com/hp/score/lang/compiler/utils/NamespaceBuilder.java:75 | a path ending in a dot and a non-empty text without dots or separators has that text as its extension |
| NamespaceBuilder.YamlFilesExact | score-lang-compiler/src/main/java/com/hp/score/lang/compiler/utils/NamespaceBuilder.java:71-78 | a path survives the yaml filter iff it was in the list and its extension is `yaml` or `yml` |
| NamespaceBuilder.YamlFiles | score-lang-compiler/src/main/java/com/hp/score/lang/compiler/utils/NamespaceBuilder.java:78 | the filter keeps only yaml paths and never more paths than it was given |
| NamespaceBuilder.IsYamlExact | score-lang-compiler/src/main/java/com/hp/score/lang/compiler/utils/NamespaceBuilder.java:71-77 | a path passes the yaml test iff it ends in `.yaml` or `.yml` |
| NamespaceBuilder.IndexKeys | score-lang-compiler/src/main/java/com/hp/score/lang/compiler/utils/NamespaceBuilder.java:80-91 | the index's keys are exactly the namespaces of the parsed files |
| NamespaceBuilder.IndexOf | score-lang-compiler/src/main/java/com/hp/score/lang/compiler/utils/NamespaceBuilder.java:80-91 | no namespace of the index has an empty list, and each list holds only files of its own namespace |
| NamespaceBuilder.IndexEntries | score-lang-compiler/src/main/java/com/hp/score/lang/compiler/utils/NamespaceBuilder.java:80-91 | each namespace's entry is the list of files declaring it, in discovery order |
| NamespaceBuilder.IndexTotal | score-lang-compiler/src/main/java/com/hp/score/lang/compiler/utils/NamespaceBuilder.java:80-91 | the index holds as many entries in total as there are yaml files, so each file is listed exactly once |
| NamespaceBuilder.TotalEntriesUpdate | score-lang-compiler/src/main/java/com/hp/score/lang/compiler/utils/NamespaceBuilder.java:90 | a `put` changes the total number of entries by the new list's length minus the old one's |
| NamespaceBuilder.ResolveErrors | score-lang-compiler/src/main/java/com/hp/score/lang/compiler/utils/NamespaceBuilder.java:45-46 | fails for an empty classpath iff it is empty; for no imports iff the classpath is not empty and the imports are; for no slang files iff both are given and no yaml file is found (line 100) |
| NamespaceBuilder.ResolveImports | score-lang-compiler/src/main/java/com/hp/score/lang/compiler/utils/NamespaceBuilder.java:102-105 | on success the keys are exactly the aliases; an alias resolves iff some yaml file declares its target; then it maps to all files of that namespace, in order, and to nothing else |
| NamespaceBuilder.ImportResolution | score-lang-compiler/src/main/java/com/hp/score/lang/compiler/utils/NamespaceBuilder.java:104 | a namespace is indexed iff some file declares it, and its entry is then the non-empty list of those files |
| NamespaceBuilder.ResolveIsNonTransitive | score-lang-compiler/src/main/java/com/hp/score/lang/compiler/utils/NamespaceBuilder.java:53 | the imports of the classpath files change neither success, the aliases, which of them resolve, nor how many files each resolves to |
| SlangBootstrap.FindVariableNames | cloudslang-cli/src/main/java/io/cloudslang/lang/cli/SlangBootstrap.java:68-72 | the `find` loop collects exactly `VariableNames` of the value |
| SlangBootstrap.VariableNamesExact | cloudslang-cli/src/main/java/io/cloudslang/lang/cli/SlangBootstrap.java:35 | a string is a collected name iff it is non-empty, free of `$`, `{` and `}`, and its token occurs in the value |
| SlangBootstrap.MatchAtSound | cloudslang-cli/src/main/java/io/cloudslang/lang/cli/SlangBootstrap.java:35 | a match found at a position captures a valid name whose token starts there |
| SlangBootstrap.MatchesComplete | cloudslang-cli/src/main/java/io/cloudslang/lang/cli/SlangBootstrap.java:70-71 | every valid token at or after the scan position is captured, even after earlier matches |
| SlangBootstrap.ScanNames | cloudslang-cli/src/main/java/io/cloudslang/lang/cli/SlangBootstrap.java:69-71 | adding the matches to a set gives the names already there plus the captured names |
| SlangBootstrap.SubstitutePropertyReferences | cloudslang-cli/src/main/java/io/cloudslang/lang/cli/SlangBootstrap.java:67-80 | the loop visits each collected name exactly once, so there are as many passes as distinct names; the result is those passes applied in the visiting order |
| SlangBootstrap.ProcessProperties | cloudslang-cli/src/main/java/io/cloudslang/lang/cli/SlangBootstrap.java:56-64 | the processed properties have exactly the raw keys, and each value is a substitution of the raw value |
| SlangBootstrap.NoReferenceUnchanged | cloudslang-cli/src/main/java/io/cloudslang/lang/cli/SlangBootstrap.java:67-80 | a value without any `${NAME}` token comes back unchanged, whatever the visiting order |
| SlangBootstrap.AllUnresolvedUnchanged | cloudslang-cli/src/main/java/io/cloudslang/lang/cli/SlangBootstrap.java:73-78 | when none of the names has a non-empty property, the value comes back unchanged |
| SlangBootstrap.UnresolvedNamesChangeNothing | cloudslang-cli/src/main/java/io/cloudslang/lang/cli/SlangBootstrap.java:74-75 | passes for names whose property is missing or empty leave the value alone |
| SlangBootstrap.Step | cloudslang-cli/src/main/java/io/cloudslang/lang/cli/SlangBootstrap.java:74-77 | one pass of the loop: a name whose property is missing or empty leaves the value alone; otherwise the value is cut at each occurrence of the reference and rejoined with the property value |
| SlangBootstrap.UnresolvedLeftVerbatim | cloudslang-cli/src/main/java/io/cloudslang/lang/cli/SlangBootstrap.java:74-76 | every occurrence of a reference whose property is missing or empty survives: the result holds at least as many occurrences of it as the value, whatever the visiting order |
| SlangBootstrap.ReplaceAllKeepsOtherToken | cloudslang-cli/src/main/java/io/cloudslang/lang/cli/SlangBootstrap.java:76 | a replace-all pass for one reference leaves at least as many occurrences of a reference to any other valid name |
| SlangBootstrap.OccursCount | cloudslang-cli/src/main/java/io/cloudslang/lang/cli/SlangBootstrap.java:76 | a text occurs in a string iff its number of occurrences is positive |
| SlangBootstrap.ResolvedPassReplacesAll | cloudslang-cli/src/main/java/io/cloudslang/lang/cli/SlangBootstrap.java:75-76 | the pass for a name with a non-empty property cuts the value at every occurrence of its token, leaves no occurrence in any piece, and puts the property value in each cut |
| SlangBootstrap.ReplaceAllReplacesEveryOccurrence | cloudslang-cli/src/main/java/io/cloudslang/lang/cli/SlangBootstrap.java:76 | `String.replace` splits the string into pieces free of the target, joined by the target before and by the replacement after |
| SlangBootstrap.ReplaceAll | cloudslang-cli/src/main/java/io/cloudslang/lang/cli/SlangBootstrap.java:76 | `String.replace` leaves a string without the target unchanged |
| SlangBootstrap.PiecesJoin | cloudslang-cli/src/main/java/io/cloudslang/lang/cli/SlangBootstrap.java:76 | joining the pieces with a separator is the same as replacing every occurrence by that separator |
| SlangBootstrap.ReplaceAllByItself | cloudslang-cli/src/main/java/io/cloudslang/lang/cli/SlangBootstrap.java:76 | replacing a target by itself changes nothing |

## Left out

- Process start-up and I/O: `SlangBootstrap.main`, reading `cslang.properties` in `loadUserProperties`, `configureLogging`, log4j and the Spring Shell `Bootstrap`.
- `System.getProperty` is a `map<string, string>` parameter. A name absent from the map is a missing property.
- `Properties.propertyNames` enumerates keys in an unspecified order. The properties are a map, and no result depends on that order.
- SlangBootstrap.SubstitutePropertyReferences: the `HashSet` iteration order is not computed. The method chooses some order and records it as a ghost sequence, and every property is proved for all orders.
- SlangBootstrap.ResolvedPassReplacesAll: it is stated per pass, not for the final string. It does not hold for the final string even when no property value contains `${`:
  - take `${${a}}${b}` with `a` mapped to `b` and `b` to `c`, visiting `b` first;
  - the `b` pass gives `${${a}}c`, and the `a` pass then gives `${b}c`;
  - so the token of a resolved name is back in the result.
- ReplaceAll requires a non-empty target. Every token `${NAME}` is at least four characters long, so the requirement always holds where the model uses it.
- `FileUtils.listFiles`, `File.isDirectory` and the filesystem are an `FsNode` tree. Listing follows the order of a directory's children, and the files of a subdirectory come where the subdirectory stands.
- `classpath.extensions` is a list that has already been split: `Option<seq<string>>`, with `None` giving `yaml,yml,py`. `String.split` and its edge cases are not modelled.
- `yamlParser.loadSlangFile` is a total function parameter. Its parse failures and I/O errors are not modelled.
- `TreeMap` key ordering is not modelled. The index and the result are Dafny maps, which compare by contents.
- The Python-file support is commented out in `NamespaceBuilder.java` (lines 79 and 92-94) and is not modelled.
- `FilenameUtils.getExtension` is modelled as the text after the last dot of the last path component, with `/` and `\` as separators. Windows drive prefixes are not treated specially.
- YAML map keys are strings. A non-string key, which would fail the `(String)` cast, is not modelled.
- InputsTransformer.Lookup: a `Raw.Map` may list a key twice, which a Java map cannot. Lookup returns the first such entry (LookupFirst), and otherwise keys are taken to be distinct.
- A null namespace from the parser, or a null import target, makes the `TreeMap` lookups at `NamespaceBuilder.java` lines 82 and 104 throw. Namespaces and import targets are plain strings here, so that failure is not modelled.
- `Input`'s two-argument constructor is not part of this model. Its defaults are taken as the documented defaults of a binding: required, not encrypted, not overridable, no default value.
- The expression sigil `SlangTextualKeys.EXPRESSION_PREFIX_KEY` is not part of this model. The constant `ExpressionPrefix` stands for it, and no proof depends on its value.
- Java values are classified as string, map, boolean, integer, null and "other" (floats, dates, lists). Null is the only value that is not `Serializable`.
- The `SlangFile`, `Transformer` and `Scope` classes are not part of this model. They appear only as the fields this core reads.
- Spring `@Component`/`@Autowired` wiring and Lambdaj `Lambda.filter` are not modelled: the filter is a plain recursive function.
