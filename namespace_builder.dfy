/**
 * The namespace builder of the Slang compiler: for one file being compiled,
 * it indexes every Slang (YAML) file of the classpath by namespace and then
 * keeps, for each import alias of that file, the files of the namespace
 * the alias names.
 *
 * The filesystem is a tree of nodes and the YAML parser is a function from a
 * file's path to its summary; both are parameters.
 */
module NamespaceBuilder {
  import opened Wrappers

  /** A classpath entry as the filesystem shows it: a file, or a directory with its children. */
  datatype FsNode = File(path: string) | Directory(path: string, children: seq<FsNode>)

  /**
   * What the YAML parser yields for a file: its namespace, its imports
   * (alias to namespace) and the rest of the document, which this component
   * never looks at.
   */
  datatype SlangFile = SlangFile(namespace: string, imports: map<string, string>, body: string)

  /** The namespace index: namespace to the files that declare it, in discovery order. */
  type Index = map<string, seq<SlangFile>>

  /** The result: import alias to the files of its namespace, `None` where the namespace is not indexed. */
  type ImportsFiles = map<string, Option<seq<SlangFile>>>

  /** The three `Validate.notEmpty` failures. */
  datatype BuildError =
    | EmptyClasspath   // "Can't build namespaces without a classpath"
    | NoImports        // "cannot filter dependencies when there are no imports"
    | NoSlangFiles     // "File that was requested to compile has imports but no classpath was given"

  /** The value of `classpath.extensions` when that property is not set. */
  const DefaultExtensions: seq<string> := ["yaml", "yml", "py"]

  /** The extensions of the files that are parsed. */
  const YamlExtensions: seq<string> := ["yaml", "yml"]

  /** The extensions used to list directories: the property's value, split at commas, or the default. */
  function ClasspathExtensions(property: Option<seq<string>>): seq<string> {
    if property.Some? then property.value else DefaultExtensions
  }

  predicate EndsWith(s: string, suffix: string) {
    |suffix| <= |s| && s[|s| - |suffix|..] == suffix
  }

  /** FileUtils' suffix filter: the name ends with a dot and one of the extensions. */
  predicate HasListedExtension(path: string, extensions: seq<string>) {
    exists k :: 0 <= k < |extensions| && EndsWith(path, "." + extensions[k])
  }

  /** The position of the last `c` in `s`, or -1. */
  function LastIndexOf(s: string, c: char): (i: int)
    ensures -1 <= i < |s|
    ensures i >= 0 ==> s[i] == c
    ensures forall j :: i < j < |s| ==> s[j] != c
  {
    if |s| == 0 then -1
    else if s[|s| - 1] == c then |s| - 1
    else LastIndexOf(s[..|s| - 1], c)
  }

  function Max(a: int, b: int): int {
    if a < b then b else a
  }

  predicate IsSeparator(c: char) {
    c == '/' || c == '\\'
  }

  /** Whether no path separator follows position `k`: it lies in the last path component. */
  predicate InLastComponent(path: string, k: nat) {
    forall j :: k < j < |path| ==> !IsSeparator(path[j])
  }

  /**
   * FilenameUtils.getExtension: the text after the last dot, or "" when
   * there is no dot or a path separator comes after it.
   */
  function Extension(path: string): (e: string)
    ensures EndsWith(path, e)
    ensures forall k :: 0 <= k < |e| ==> e[k] != '.' && !IsSeparator(e[k])
    ensures e != "" ==> |e| < |path| && path[|path| - |e| - 1] == '.'
    ensures e == "" <==>
      (|path| > 0 && path[|path| - 1] == '.') || forall k :: 0 <= k < |path| && path[k] == '.' ==> !InLastComponent(path, k)
  {
    var dot := LastIndexOf(path, '.');
    var separator := Max(LastIndexOf(path, '/'), LastIndexOf(path, '\\'));
    if dot < 0 || separator > dot then "" else path[dot + 1..]
  }

  /** The yaml filter of sortByNameSpace. */
  predicate IsYaml(path: string) {
    Extension(path) in YamlExtensions
  }

  /**
   * FileUtils.listFiles(directory, extensions, true) on the children of a
   * directory: the files of the whole subtree whose name carries one of the
   * extensions, in the order of the children.
   */
  function ListFiles(nodes: seq<FsNode>, extensions: seq<string>): (files: seq<string>)
    ensures forall k :: 0 <= k < |files| ==> HasListedExtension(files[k], extensions)
    ensures forall k :: 0 <= k < |nodes| && nodes[k].File? && HasListedExtension(nodes[k].path, extensions) ==>
      nodes[k].path in files
    decreases nodes
  {
    if nodes == [] then []
    else
      var first := match nodes[0]
        case File(p) => if HasListedExtension(p, extensions) then [p] else []
        case Directory(_, children) => ListFiles(children, extensions);
      first + ListFiles(nodes[1..], extensions)
  }

  /** Whether `p` is the path of a file somewhere in the forest `nodes`. */
  predicate InTree(nodes: seq<FsNode>, p: string)
    decreases nodes
  {
    nodes != [] &&
    ((match nodes[0]
      case File(q) => q == p
      case Directory(_, children) => InTree(children, p))
     || InTree(nodes[1..], p))
  }

  /** One classpath entry flattened: a plain file as it is, a directory listed. */
  function EntryFiles(entry: FsNode, extensions: seq<string>): seq<string> {
    match entry
    case File(p) => [p]
    case Directory(_, children) => ListFiles(children, extensions)
  }

  /**
   * The flattened classpath: plain files are kept whatever their extension;
   * directories contribute the files with one of the listing extensions.
   */
  function Flatten(classpath: seq<FsNode>, extensions: seq<string>): seq<string> {
    if classpath == [] then []
    else Flatten(classpath[..|classpath| - 1], extensions) + EntryFiles(classpath[|classpath| - 1], extensions)
  }

  /** Lambda.filter(isYaml, classpath): the yaml files, in order. */
  function YamlFiles(files: seq<string>): (yamls: seq<string>)
    ensures forall k :: 0 <= k < |yamls| ==> IsYaml(yamls[k])
    ensures |yamls| <= |files|
  {
    if files == [] then []
    else YamlFiles(files[..|files| - 1]) + if IsYaml(files[|files| - 1]) then [files[|files| - 1]] else []
  }

  /** The summaries of the files, as the parser yields them, in order. */
  function Parsed(files: seq<string>, parse: string -> SlangFile): (summaries: seq<SlangFile>)
    ensures |summaries| == |files|
    ensures forall k :: 0 <= k < |files| ==> summaries[k] == parse(files[k])
  {
    seq(|files|, k requires 0 <= k < |files| => parse(files[k]))
  }

  /** The summaries that declare namespace `ns`, in order: the reference for an index entry. */
  function InNamespace(summaries: seq<SlangFile>, ns: string): (r: seq<SlangFile>)
    ensures forall k :: 0 <= k < |r| ==> r[k].namespace == ns
    ensures forall k :: 0 <= k < |summaries| && summaries[k].namespace == ns ==> summaries[k] in r
    ensures |r| <= |summaries|
  {
    if summaries == [] then []
    else
      var last := summaries[|summaries| - 1];
      InNamespace(summaries[..|summaries| - 1], ns) + if last.namespace == ns then [last] else []
  }

  /** The index after the files have been put in one at a time, each appended to its namespace's list. */
  function IndexOf(summaries: seq<SlangFile>): (index: Index)
    ensures forall ns :: ns in index ==> index[ns] != []
    ensures forall ns :: ns in index ==> forall k :: 0 <= k < |index[ns]| ==> index[ns][k].namespace == ns
  {
    if summaries == [] then map[]
    else
      var index := IndexOf(summaries[..|summaries| - 1]);
      var file := summaries[|summaries| - 1];
      var existing := if file.namespace in index then index[file.namespace] else [];
      index[file.namespace := existing + [file]]
  }

  /** The number of files listed in an index, over all namespaces. */
  ghost function TotalEntries(index: Index): nat
    decreases |index|
  {
    if |index| == 0 then 0
    else
      var ns := Pick(index);
      RemoveShrinks(index, ns);
      |index[ns]| + TotalEntries(index - {ns})
  }

  /** Some namespace of a non-empty index. */
  ghost function Pick(index: Index): (ns: string)
    requires |index| > 0
    ensures ns in index
  {
    assert index.Keys != {};
    var ns :| ns in index; ns
  }

  /** filterNonSlangFiles: the loop that flattens the classpath. */
  method FilterNonSlangFiles(classpath: seq<FsNode>, extensionsProperty: Option<seq<string>>) returns (filtered: seq<string>)
    ensures filtered == Flatten(classpath, ClasspathExtensions(extensionsProperty))
  {
    var extensions := ClasspathExtensions(extensionsProperty);
    filtered := [];
    for i := 0 to |classpath|
      invariant filtered == Flatten(classpath[..i], extensions)
    {
      assert classpath[..i + 1][..i] == classpath[..i];
      match classpath[i]
      case Directory(_, children) =>
        filtered := filtered + ListFiles(children, extensions);
      case File(p) =>
        filtered := filtered + [p];
    }
    assert classpath[..|classpath|] == classpath;
  }

  /** sortByNameSpace: the loop that parses every yaml file and appends it to its namespace's list. */
  method SortByNamespace(classpath: seq<string>, parse: string -> SlangFile) returns (namespaces: Index)
    ensures namespaces == IndexOf(Parsed(YamlFiles(classpath), parse))
  {
    namespaces := map[];
    var yamlFiles := YamlFiles(classpath);
    ghost var parsed := Parsed(yamlFiles, parse);
    for i := 0 to |yamlFiles|
      invariant namespaces == IndexOf(parsed[..i])
    {
      assert parsed[..i + 1][..i] == parsed[..i];
      var slangFile := parse(yamlFiles[i]);
      var slangFilesToAdd := if slangFile.namespace in namespaces then namespaces[slangFile.namespace] else [];
      slangFilesToAdd := slangFilesToAdd + [slangFile];
      namespaces := namespaces[slangFile.namespace := slangFilesToAdd];
    }
    assert parsed[..|yamlFiles|] == parsed;
  }

  /** The filter step: each alias to the index entry of its namespace, or `None`. */
  function ImportedFiles(namespaces: Index, imports: map<string, string>): ImportsFiles {
    map alias | alias in imports :: if imports[alias] in namespaces then Some(namespaces[imports[alias]]) else None
  }

  /** filterNonImportedFiles: rejects an empty index, then one `put` per import. */
  method FilterNonImportedFiles(namespaces: Index, imports: map<string, string>) returns (r: Result<ImportsFiles, BuildError>)
    ensures r.Failure? <==> |namespaces| == 0
    ensures r.Failure? ==> r.error == NoSlangFiles
    ensures r.Success? ==> r.value.Keys == imports.Keys
    ensures r.Success? ==> forall alias :: alias in imports ==>
      r.value[alias] == if imports[alias] in namespaces then Some(namespaces[imports[alias]]) else None
  {
    if |namespaces| == 0 {
      return Failure(NoSlangFiles);
    }
    var importsFiles: ImportsFiles := map[];
    var remaining := imports.Keys;
    while remaining != {}
      invariant remaining <= imports.Keys
      invariant importsFiles.Keys == imports.Keys - remaining
      invariant forall alias :: alias in importsFiles ==>
        importsFiles[alias] == if imports[alias] in namespaces then Some(namespaces[imports[alias]]) else None
      decreases remaining
    {
      var alias :| alias in remaining;
      var target := imports[alias];
      importsFiles := importsFiles[alias := if target in namespaces then Some(namespaces[target]) else None];
      remaining := remaining - {alias};
    }
    r := Success(importsFiles);
  }

  /** The summaries of the yaml files found on the classpath, in discovery order. */
  function YamlSummaries(classpath: seq<FsNode>, extensions: seq<string>, parse: string -> SlangFile): seq<SlangFile> {
    Parsed(YamlFiles(Flatten(classpath, extensions)), parse)
  }

  /** The whole of buildNamespace as one function of its inputs. */
  function Resolve(classpath: seq<FsNode>, imports: map<string, string>, extensions: seq<string>, parse: string -> SlangFile)
    : Result<ImportsFiles, BuildError>
  {
    if |classpath| == 0 then Failure(EmptyClasspath)
    else if |imports| == 0 then Failure(NoImports)
    else
      var index := IndexOf(YamlSummaries(classpath, extensions, parse));
      if |index| == 0 then Failure(NoSlangFiles) else Success(ImportedFiles(index, imports))
  }

  /** buildNamespace: validate, flatten, index, filter. */
  method BuildNamespace(classpath: seq<FsNode>, slangFile: SlangFile, extensionsProperty: Option<seq<string>>,
                        parse: string -> SlangFile)
    returns (r: Result<ImportsFiles, BuildError>)
    ensures r == Resolve(classpath, slangFile.imports, ClasspathExtensions(extensionsProperty), parse)
  {
    if |classpath| == 0 {
      return Failure(EmptyClasspath);
    }
    if |slangFile.imports| == 0 {
      return Failure(NoImports);
    }
    var filteredClassPath := FilterNonSlangFiles(classpath, extensionsProperty);
    var namespaces := SortByNamespace(filteredClassPath, parse);
    r := FilterNonImportedFiles(namespaces, slangFile.imports);
    if r.Success? {
      assert r.value == ImportedFiles(namespaces, slangFile.imports);
    }
  }

  // ----- Properties of the flattened classpath -----

  /** A directory listing holds exactly the files of its subtree that carry one of the extensions. */
  lemma {:induction false} ListFilesExact(nodes: seq<FsNode>, extensions: seq<string>)
    ensures forall p :: p in ListFiles(nodes, extensions) <==> InTree(nodes, p) && HasListedExtension(p, extensions)
    decreases nodes
  {
    if nodes != [] {
      ListFilesExact(nodes[1..], extensions);
      if nodes[0].Directory? {
        ListFilesExact(nodes[0].children, extensions);
      }
    }
  }

  /**
   * What the flattened classpath holds: exactly the plain classpath
   * entries, whatever their extension, and the files anywhere below a
   * classpath directory that carry one of the listing extensions.
   */
  lemma {:induction false} FlattenContents(classpath: seq<FsNode>, extensions: seq<string>)
    ensures forall p :: p in Flatten(classpath, extensions) <==>
      File(p) in classpath
      || exists j :: 0 <= j < |classpath| && classpath[j].Directory?
                     && InTree(classpath[j].children, p) && HasListedExtension(p, extensions)
  {
    if classpath != [] {
      var init := classpath[..|classpath| - 1];
      var last := classpath[|classpath| - 1];
      FlattenContents(init, extensions);
      assert classpath == init + [last];
      if last.Directory? {
        ListFilesExact(last.children, extensions);
      }
      forall p
        ensures p in Flatten(classpath, extensions) <==>
          File(p) in classpath
          || exists j :: 0 <= j < |classpath| && classpath[j].Directory?
                         && InTree(classpath[j].children, p) && HasListedExtension(p, extensions)
      {
        if exists j :: 0 <= j < |classpath| && classpath[j].Directory?
                       && InTree(classpath[j].children, p) && HasListedExtension(p, extensions) {
          var j :| 0 <= j < |classpath| && classpath[j].Directory?
                   && InTree(classpath[j].children, p) && HasListedExtension(p, extensions);
          if j < |init| {
            assert init[j] == classpath[j];
          }
        }
        if exists j :: 0 <= j < |init| && init[j].Directory?
                       && InTree(init[j].children, p) && HasListedExtension(p, extensions) {
          var j :| 0 <= j < |init| && init[j].Directory?
                   && InTree(init[j].children, p) && HasListedExtension(p, extensions);
          assert classpath[j] == init[j];
        }
      }
    }
  }

  /** Every yaml file of the flattened classpath is parsed, and nothing else is. */
  lemma {:induction false} YamlFilesExact(files: seq<string>)
    ensures forall p :: p in YamlFiles(files) <==> p in files && IsYaml(p)
  {
    if files != [] {
      YamlFilesExact(files[..|files| - 1]);
      assert files == files[..|files| - 1] + [files[|files| - 1]];
    }
  }

  // ----- Properties of the index -----

  /** The index has one key per namespace declared by some file, and no other. */
  lemma {:induction false} IndexKeys(summaries: seq<SlangFile>)
    ensures IndexOf(summaries).Keys == set k | 0 <= k < |summaries| :: summaries[k].namespace
  {
    if summaries != [] {
      var init := summaries[..|summaries| - 1];
      IndexKeys(init);
      var last := summaries[|summaries| - 1];
      assert (set k | 0 <= k < |summaries| :: summaries[k].namespace)
          == (set k | 0 <= k < |init| :: init[k].namespace) + {last.namespace} by {
        forall k | 0 <= k < |init| ensures summaries[k] == init[k] { }
      }
    }
  }

  /**
   * Each index entry lists exactly the files of its namespace, in discovery
   * order, every one as often as it was found.
   */
  lemma {:induction false} IndexEntries(summaries: seq<SlangFile>)
    ensures forall ns :: ns in IndexOf(summaries) ==> IndexOf(summaries)[ns] == InNamespace(summaries, ns)
    ensures forall ns :: ns !in IndexOf(summaries) ==> InNamespace(summaries, ns) == []
  {
    if summaries != [] {
      var init := summaries[..|summaries| - 1];
      IndexEntries(init);
    }
  }

  lemma RemoveShrinks(index: Index, ns: string)
    requires ns in index
    ensures |index - {ns}| == |index| - 1
  {
    assert (index - {ns}).Keys == index.Keys - {ns};
  }

  /** The total does not depend on which namespace the sum takes first. */
  lemma {:induction false} TotalEntriesRemove(index: Index, ns: string)
    requires ns in index
    ensures TotalEntries(index) == |index[ns]| + TotalEntries(index - {ns})
    decreases |index|
  {
    RemoveShrinks(index, ns);
    var chosen := Pick(index);
    if chosen != ns {
      var rest := index - {chosen};
      var without := index - {ns};
      RemoveShrinks(index, chosen);
      assert ns in rest && chosen in without;
      TotalEntriesRemove(rest, ns);
      TotalEntriesRemove(without, chosen);
      assert rest - {ns} == without - {chosen};
    }
  }

  lemma TotalEntriesUpdate(index: Index, ns: string, files: seq<SlangFile>)
    ensures TotalEntries(index[ns := files]) + (if ns in index then |index[ns]| else 0) == TotalEntries(index) + |files|
  {
    var updated := index[ns := files];
    assert ns in updated && updated[ns] == files;
    TotalEntriesRemove(updated, ns);
    assert updated - {ns} == index - {ns};
    if ns in index {
      TotalEntriesRemove(index, ns);
    } else {
      assert index - {ns} == index;
    }
  }

  /** Every parsed file is counted once: the index lists as many entries as there are yaml files. */
  lemma {:induction false} IndexTotal(summaries: seq<SlangFile>)
    ensures TotalEntries(IndexOf(summaries)) == |summaries|
  {
    if summaries == [] {
      assert |IndexOf(summaries)| == 0;
    } else {
      var init := summaries[..|summaries| - 1];
      IndexTotal(init);
      var index := IndexOf(init);
      var file := summaries[|summaries| - 1];
      var existing := if file.namespace in index then index[file.namespace] else [];
      TotalEntriesUpdate(index, file.namespace, existing + [file]);
    }
  }

  // ----- Properties of the whole resolution -----

  /**
   * The failures of buildNamespace, each exactly when its cause holds: an
   * empty classpath first, then an empty import map, then a classpath
   * without any yaml file.
   */
  lemma ResolveErrors(classpath: seq<FsNode>, imports: map<string, string>, extensions: seq<string>, parse: string -> SlangFile)
    ensures Resolve(classpath, imports, extensions, parse) == Failure(EmptyClasspath) <==> |classpath| == 0
    ensures Resolve(classpath, imports, extensions, parse) == Failure(NoImports) <==> |classpath| > 0 && |imports| == 0
    ensures Resolve(classpath, imports, extensions, parse) == Failure(NoSlangFiles) <==>
      |classpath| > 0 && |imports| > 0 && YamlFiles(Flatten(classpath, extensions)) == []
  {
    var summaries := YamlSummaries(classpath, extensions, parse);
    IndexKeys(summaries);
    if summaries != [] {
      assert summaries[0].namespace in IndexOf(summaries);
    }
  }

  /**
   * On success the result has exactly the aliases of the compiled file; each
   * maps to all files of its target namespace in discovery order, or to
   * `None` when no yaml file declares that namespace. No other namespace
   * appears.
   */
  lemma ResolveImports(classpath: seq<FsNode>, imports: map<string, string>, extensions: seq<string>, parse: string -> SlangFile)
    requires Resolve(classpath, imports, extensions, parse).Success?
    ensures Resolve(classpath, imports, extensions, parse).value.Keys == imports.Keys
    ensures forall alias :: alias in imports ==>
      var result := Resolve(classpath, imports, extensions, parse).value[alias];
      var summaries := YamlSummaries(classpath, extensions, parse);
      && (result.Some? <==> exists k :: 0 <= k < |summaries| && summaries[k].namespace == imports[alias])
      && (result.Some? ==> result.value == InNamespace(summaries, imports[alias]) && result.value != [])
      && (result.Some? ==> forall k :: 0 <= k < |result.value| ==> result.value[k].namespace == imports[alias])
  {
    var summaries := YamlSummaries(classpath, extensions, parse);
    forall alias | alias in imports
      ensures var result := ImportedFiles(IndexOf(summaries), imports)[alias];
        && (result.Some? <==> exists k :: 0 <= k < |summaries| && summaries[k].namespace == imports[alias])
        && (result.Some? ==> result.value == InNamespace(summaries, imports[alias]) && result.value != [])
        && (result.Some? ==> forall k :: 0 <= k < |result.value| ==> result.value[k].namespace == imports[alias])
    {
      ImportResolution(summaries, imports[alias]);
    }
  }

  /** The index entry one import looks up, as a function of its target namespace. */
  lemma ImportResolution(summaries: seq<SlangFile>, target: string)
    ensures target in IndexOf(summaries) <==> exists k :: 0 <= k < |summaries| && summaries[k].namespace == target
    ensures target in IndexOf(summaries) ==>
      IndexOf(summaries)[target] == InNamespace(summaries, target) && IndexOf(summaries)[target] != []
  {
    IndexKeys(summaries);
    IndexEntries(summaries);
    if target in IndexOf(summaries) {
      var k :| 0 <= k < |summaries| && summaries[k].namespace == target;
      assert summaries[k] in InNamespace(summaries, target);
    }
  }

  /**
   * Resolution is not transitive: what the files on the classpath import
   * themselves changes neither success, nor the aliases of the result, nor
   * which of them resolve, nor how many files each resolves to.
   */
  lemma ResolveIsNonTransitive(classpath: seq<FsNode>, imports: map<string, string>, extensions: seq<string>,
                               parse: string -> SlangFile, parse': string -> SlangFile)
    requires forall path :: parse(path).namespace == parse'(path).namespace
    ensures Resolve(classpath, imports, extensions, parse).Success? == Resolve(classpath, imports, extensions, parse').Success?
    ensures Resolve(classpath, imports, extensions, parse).Success? ==>
      var result := Resolve(classpath, imports, extensions, parse).value;
      var result' := Resolve(classpath, imports, extensions, parse').value;
      && result.Keys == result'.Keys
      && forall alias :: alias in result ==>
           result[alias].Some? == result'[alias].Some?
           && (result[alias].Some? ==> |result[alias].value| == |result'[alias].value|)
  {
    var summaries := YamlSummaries(classpath, extensions, parse);
    var summaries' := YamlSummaries(classpath, extensions, parse');
    assert forall k :: 0 <= k < |summaries| ==> summaries[k].namespace == summaries'[k].namespace;
    IndexShape(summaries, summaries');
  }

  /** Two runs of the parser that agree on namespaces give indexes of the same shape. */
  lemma IndexShape(summaries: seq<SlangFile>, summaries': seq<SlangFile>)
    requires |summaries| == |summaries'|
    requires forall k :: 0 <= k < |summaries| ==> summaries[k].namespace == summaries'[k].namespace
    ensures IndexOf(summaries).Keys == IndexOf(summaries').Keys
    ensures forall ns :: ns in IndexOf(summaries) ==> |IndexOf(summaries)[ns]| == |IndexOf(summaries')[ns]|
  {
    IndexKeys(summaries);
    IndexKeys(summaries');
    IndexEntries(summaries);
    IndexEntries(summaries');
    forall ns ensures |InNamespace(summaries, ns)| == |InNamespace(summaries', ns)| {
      SameNamespacesSameCount(summaries, summaries', ns);
    }
  }

  lemma {:induction false} SameNamespacesSameCount(summaries: seq<SlangFile>, summaries': seq<SlangFile>, ns: string)
    requires |summaries| == |summaries'|
    requires forall k :: 0 <= k < |summaries| ==> summaries[k].namespace == summaries'[k].namespace
    ensures |InNamespace(summaries, ns)| == |InNamespace(summaries', ns)|
  {
    if summaries != [] {
      SameNamespacesSameCount(summaries[..|summaries| - 1], summaries'[..|summaries'| - 1], ns);
    }
  }

  /** The yaml filter keeps exactly the paths ending in `.yaml` or `.yml`. */
  lemma IsYamlExact(path: string)
    ensures IsYaml(path) <==> EndsWith(path, ".yaml") || EndsWith(path, ".yml")
  {
    YamlEndsDotted(path);
    DottedYamlIsYaml(path);
  }

  lemma YamlEndsDotted(path: string)
    ensures IsYaml(path) ==> EndsWith(path, ".yaml") || EndsWith(path, ".yml")
  {
    var e := Extension(path);
    if e != "" {
      DotBeforeSuffix(path, e);
    }
  }

  lemma DotBeforeSuffix(path: string, e: string)
    requires |e| < |path| && path[|path| - |e| - 1] == '.' && EndsWith(path, e)
    ensures EndsWith(path, "." + e)
  {
    var d := |path| - |e| - 1;
    assert path[d..] == [path[d]] + path[d + 1..];
  }

  lemma DottedYamlIsYaml(path: string)
    ensures EndsWith(path, ".yaml") || EndsWith(path, ".yml") ==> IsYaml(path)
  {
    if EndsWith(path, ".yaml") {
      DottedSuffixIsExtension(path, "yaml");
    } else if EndsWith(path, ".yml") {
      DottedSuffixIsExtension(path, "yml");
    }
  }

  /** A dot followed by a suffix without dots or separators marks the extension. */
  lemma DottedSuffixIsExtension(path: string, ext: string)
    requires ext != "" && forall k :: 0 <= k < |ext| ==> ext[k] != '.' && !IsSeparator(ext[k])
    requires EndsWith(path, "." + ext)
    ensures Extension(path) == ext
  {
    var dot := |path| - |ext| - 1;
    assert path[dot] == '.';
    assert path[dot + 1..] == ext;
    var i := LastIndexOf(path, '.');
    assert i == dot;
    var s1 := LastIndexOf(path, '/');
    var s2 := LastIndexOf(path, '\\');
    assert s1 < dot && s2 < dot;
  }
}
