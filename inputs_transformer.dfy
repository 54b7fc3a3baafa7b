/**
 * The inputs transformer of the Slang compiler: it turns the raw list of
 * `inputs:` declarations of a flow, operation or task, as the YAML parser
 * hands it over, into canonical Input bindings.
 *
 * Four shorthand forms are recognised, in this order of precedence:
 *   - some_input                      a reference input (its own name is the expression)
 *   - some_input: <sigil>expression   an inline expression
 *   - some_input: {required: ..., encrypted: ..., override: ..., default: ...}
 *                                     the verbose property form
 *   - some_input: 77                  an inline constant default
 * Anything else is dropped without a diagnostic.
 */
module InputsTransformer {
  import opened Wrappers

  /**
   * A raw YAML node. `Null` is YAML's null, the one value the parser builds
   * that is not Serializable; `Other` stands for every other non-null value
   * (a float, a date, a list), all of which are Serializable.
   * Map keys are strings; the entries keep the document's order.
   */
  datatype Raw =
    | Str(s: string)
    | Map(entries: seq<(string, Raw)>)
    | Bool(b: bool)
    | Int(i: int)
    | Other
    | Null

  /**
   * The Input binding, with the fields of its six-argument constructor:
   * Input(name, expression, defaultValue, encrypted, required, override).
   * `None` is the source's `null`.
   */
  datatype Input = Input(
    name: string,
    expression: Option<string>,
    defaultValue: Option<Raw>,
    encrypted: bool,
    required: bool,
    overridable: bool)

  /** The binding invariant: exactly one of expression and default value is set. */
  predicate ExpressionXorDefault(input: Input) {
    input.expression.Some? != input.defaultValue.Some?
  }

  /**
   * What makes `transform` throw: an empty map element (the entry iterator
   * has no first element), or a verbose-form flag whose value is not a
   * boolean (the `(boolean)` cast fails on a null or a non-Boolean).
   */
  datatype TransformError =
    | EmptyInputMap
    | MalformedFlag(input: string, key: string)

  /** The compilation points at which a transformer may run. */
  datatype Scope = BeforeExecutable | BeforeTask

  /** How a transformer is registered: its scopes and the document keys it reads and writes. */
  datatype Registration = Registration(scopes: seq<Scope>, keyToTransform: Option<string>, keyToRegister: Option<string>)

  /**
   * The expression sigil. Its concrete value lives in a constants class that
   * is not part of this model; this placeholder is only a value of the right
   * type, and no proof here depends on it.
   */
  const ExpressionPrefix: string := "fx:"

  /** The sub-keys of the verbose property form. */
  const RequiredKey: string := "required"
  const EncryptedKey: string := "encrypted"
  const OverrideKey: string := "override"
  const DefaultKey: string := "default"

  predicate StartsWith(s: string, prefix: string) {
    |prefix| <= |s| && s[..|prefix|] == prefix
  }

  /** isExpression: a string value that begins with the sigil. */
  predicate IsExpression(v: Raw) {
    v.Str? && StartsWith(v.s, ExpressionPrefix)
  }

  /** extractExpression: the value with one leading sigil removed (StringUtils.removeStart). */
  function ExtractExpression(s: string): (e: string)
    ensures StartsWith(s, ExpressionPrefix) ==> ExpressionPrefix + e == s
    ensures !StartsWith(s, ExpressionPrefix) ==> e == s
  {
    if StartsWith(s, ExpressionPrefix) then s[|ExpressionPrefix|..] else s
  }

  /** Map.get on the entries of a YAML map: the value of the first entry with that key. */
  function Lookup(entries: seq<(string, Raw)>, key: string): (r: Option<Raw>)
    ensures r.None? <==> forall k :: 0 <= k < |entries| ==> entries[k].0 != key
    ensures r.Some? ==> exists k :: 0 <= k < |entries| && entries[k] == (key, r.value)
  {
    if |entries| == 0 then None
    else if entries[0].0 == key then Some(entries[0].1)
    else Lookup(entries[1..], key)
  }

  /** The value found is the one of the first entry with the key. */
  lemma {:induction false} LookupFirst(entries: seq<(string, Raw)>, key: string)
    requires Lookup(entries, key).Some?
    ensures exists k :: 0 <= k < |entries| && entries[k] == (key, Lookup(entries, key).value)
                        && forall j :: 0 <= j < k ==> entries[j].0 != key
  {
    if entries[0].0 != key {
      LookupFirst(entries[1..], key);
      var k :| 0 <= k < |entries[1..]| && entries[1..][k] == (key, Lookup(entries, key).value)
               && forall j :: 0 <= j < k ==> entries[1..][j].0 != key;
      assert entries[k + 1] == (key, Lookup(entries, key).value);
      assert forall j :: 0 <= j < k + 1 ==> entries[j].0 != key by {
        assert forall j :: 1 <= j < k + 1 ==> entries[j] == entries[1..][j - 1];
      }
    } else {
      assert entries[0] == (key, Lookup(entries, key).value);
    }
  }

  /** A flag sub-key can be read when it is absent or holds a boolean. */
  predicate FlagReadable(prop: seq<(string, Raw)>, key: string) {
    Lookup(prop, key).None? || Lookup(prop, key).value.Bool?
  }

  /**
   * Reads one flag of the verbose form: `absent` when the key is missing,
   * the boolean when it holds one, and the cast failure otherwise.
   */
  function ReadFlag(name: string, prop: seq<(string, Raw)>, key: string, absent: bool): (r: Result<bool, TransformError>)
    ensures r.Success? <==> FlagReadable(prop, key)
    ensures r.Failure? ==> r.error == MalformedFlag(name, key)
  {
    match Lookup(prop, key)
    case None => Success(absent)
    case Some(Bool(b)) => Success(b)
    case Some(_) => Failure(MalformedFlag(name, key))
  }

  /**
   * The five-argument createPropInput: a sigil-prefixed value becomes the
   * expression, any other non-null value the default, and a null value
   * makes the input look itself up by name.
   */
  function CreatePropInput(name: string, required: bool, encrypted: bool, value: Raw, overridable: bool): (r: Input)
    ensures r.name == name && r.required == required && r.encrypted == encrypted && r.overridable == overridable
    ensures IsExpression(value) ==>
      r.expression.Some? && ExpressionPrefix + r.expression.value == value.s && r.defaultValue.None?
    ensures !IsExpression(value) && value != Null ==> r.expression.None? && r.defaultValue == Some(value)
    ensures value == Null ==> r.expression == Some(name) && r.defaultValue.None?
    ensures ExpressionXorDefault(r)
  {
    var expression: Option<string> :=
      if IsExpression(value) then Some(ExtractExpression(value.s))
      else if value != Null then None
      else Some(name);
    var defaultValue: Option<Raw> := if !IsExpression(value) && value != Null then Some(value) else None;
    Input(name, expression, defaultValue, encrypted, required, overridable)
  }

  /**
   * The two-argument createPropInput: the verbose property form. `required`
   * is true unless present and false, `encrypted` and `override` are false
   * unless present and true, and `default` decides between expression and
   * default value.
   */
  function PropInput(name: string, prop: seq<(string, Raw)>): (r: Result<Input, TransformError>)
    ensures r.Success? <==> FlagReadable(prop, RequiredKey) && FlagReadable(prop, EncryptedKey) && FlagReadable(prop, OverrideKey)
    ensures r.Failure? ==> r.error.MalformedFlag? && r.error.input == name
    ensures r.Success? ==> r.value.name == name && ExpressionXorDefault(r.value)
    ensures r.Success? ==> r.value.required == (Lookup(prop, RequiredKey) != Some(Bool(false)))
    ensures r.Success? ==> r.value.encrypted == (Lookup(prop, EncryptedKey) == Some(Bool(true)))
    ensures r.Success? ==> r.value.overridable == (Lookup(prop, OverrideKey) == Some(Bool(true)))
    ensures r.Success? && Lookup(prop, DefaultKey).Some? && IsExpression(Lookup(prop, DefaultKey).value) ==>
      r.value.expression == Some(ExtractExpression(Lookup(prop, DefaultKey).value.s)) && r.value.defaultValue.None?
    ensures r.Success? && Lookup(prop, DefaultKey).Some? && !IsExpression(Lookup(prop, DefaultKey).value)
                       && Lookup(prop, DefaultKey).value != Null ==>
      r.value.expression.None? && r.value.defaultValue == Lookup(prop, DefaultKey)
    ensures r.Success? && (Lookup(prop, DefaultKey).None? || Lookup(prop, DefaultKey) == Some(Null)) ==>
      r.value.expression == Some(name) && r.value.defaultValue.None?
  {
    var required :- ReadFlag(name, prop, RequiredKey, true);
    var encrypted :- ReadFlag(name, prop, EncryptedKey, false);
    var overridable :- ReadFlag(name, prop, OverrideKey, false);
    var valueProp := if Lookup(prop, DefaultKey).Some? then Lookup(prop, DefaultKey).value else Null;
    Success(CreatePropInput(name, required, encrypted, valueProp, overridable))
  }

  /**
   * Input's two-argument constructor. Its defaults for the other fields are
   * not in the modelled source; they follow the documented defaults of a
   * binding: required, not encrypted, not overridable, no default value.
   */
  function RefBinding(name: string, expression: string): Input {
    Input(name, Some(expression), None, false, true, false)
  }

  /** createRefInput: a bare name refers to itself. */
  function RefInput(rawInput: string): (r: Input)
    ensures r.name == rawInput && r.expression == Some(r.name) && ExpressionXorDefault(r)
    ensures r.required && !r.encrypted && !r.overridable
  {
    RefBinding(rawInput, rawInput)
  }

  /** createInlineExpressionInput: required, not encrypted, not overridable. */
  function InlineExpressionInput(name: string, value: string): (r: Input)
    ensures r.name == name && r.required && !r.encrypted && !r.overridable
    ensures StartsWith(value, ExpressionPrefix) ==>
      r.expression.Some? && ExpressionPrefix + r.expression.value == value && r.defaultValue.None?
  {
    CreatePropInput(name, true, false, Str(value), false)
  }

  /** createInlineDefaultValueInput. */
  function InlineDefaultValueInput(name: string, value: Raw): (r: Input)
    ensures r.name == name && r.expression.None? && r.defaultValue == Some(value) && ExpressionXorDefault(r)
    ensures r.required && !r.encrypted && !r.overridable
  {
    Input(name, None, Some(value), false, true, false)
  }

  /**
   * The body of the `transform` loop for one raw element: `Some` input, or
   * `None` when the element is dropped. Only the first entry of a map
   * element is examined.
   */
  function TransformOne(raw: Raw): (r: Result<Option<Input>, TransformError>)
    ensures raw.Str? ==> r == Success(Some(Input(raw.s, Some(raw.s), None, false, true, false)))
    ensures raw.Map? && |raw.entries| == 0 ==> r == Failure(EmptyInputMap)
    ensures raw.Map? && |raw.entries| > 0 && IsExpression(raw.entries[0].1) ==>
      var (k, v) := raw.entries[0];
      r.Success? && r.value.Some? && r.value.value.name == k
      && r.value.value.expression.Some? && ExpressionPrefix + r.value.value.expression.value == v.s
      && r.value.value.defaultValue.None?
      && r.value.value.required && !r.value.value.encrypted && !r.value.value.overridable
    ensures raw.Map? && |raw.entries| > 0 && raw.entries[0].1.Map? ==>
      var (k, v) := raw.entries[0];
      r.Success? == PropInput(k, v.entries).Success?
      && (r.Success? ==> r.value == Some(PropInput(k, v.entries).value))
      && (r.Failure? ==> r.error == PropInput(k, v.entries).error)
    ensures raw.Map? && |raw.entries| > 0 && !IsExpression(raw.entries[0].1) && !raw.entries[0].1.Map?
                     && raw.entries[0].1 != Null ==>
      var (k, v) := raw.entries[0];
      r == Success(Some(Input(k, None, Some(v), false, true, false)))
    ensures raw.Map? && |raw.entries| > 0 && raw.entries[0].1 == Null ==> r == Success(None)
    ensures !raw.Str? && !raw.Map? ==> r == Success(None)
    ensures r.Failure? ==> raw.Map?
    ensures r.Success? && r.value.Some? ==> ExpressionXorDefault(r.value.value)
  {
    match raw
    case Str(s) => Success(Some(RefInput(s)))
    case Map(entries) =>
      if |entries| == 0 then Failure(EmptyInputMap)
      else
        var (key, value) := entries[0];
        if value.Str? && IsExpression(value) then Success(Some(InlineExpressionInput(key, value.s)))
        else if value.Map? then
          var input :- PropInput(key, value.entries);
          Success(Some(input))
        else if value != Null then Success(Some(InlineDefaultValueInput(key, value)))
        else Success(None)
    case _ => Success(None)
  }

  /** Whether a raw element yields an input. */
  predicate Produces(raw: Raw) {
    TransformOne(raw).Success? && TransformOne(raw).value.Some?
  }

  /**
   * The whole transformation: the inputs of the elements in order, or the
   * error of the first element that throws.
   */
  function TransformAll(raws: seq<Raw>): (r: Result<seq<Input>, TransformError>)
    ensures r.Success? ==> |r.value| <= |raws|
    ensures r.Success? ==> forall k :: 0 <= k < |r.value| ==> ExpressionXorDefault(r.value[k])
  {
    if raws == [] then Success([])
    else
      match TransformAll(raws[..|raws| - 1])
      case Failure(e) => Failure(e)
      case Success(prefix) =>
        match TransformOne(raws[|raws| - 1])
        case Failure(e) => Failure(e)
        case Success(last) => Success(prefix + if last.Some? then [last.value] else [])
  }

  /** The positions of the elements that yield an input, in increasing order. */
  function Kept(raws: seq<Raw>): seq<nat> {
    if raws == [] then []
    else Kept(raws[..|raws| - 1]) + if Produces(raws[|raws| - 1]) then [|raws| - 1] else []
  }

  /** transform: the loop that appends one input per recognised element. */
  method Transform(rawData: seq<Raw>) returns (r: Result<seq<Input>, TransformError>)
    ensures r == TransformAll(rawData)
  {
    var result: seq<Input> := [];
    var i := 0;
    while i < |rawData|
      invariant 0 <= i <= |rawData|
      invariant TransformAll(rawData[..i]) == Success(result)
    {
      assert rawData[..i + 1][..i] == rawData[..i];
      assert rawData[..i + 1][i] == rawData[i];
      var one := TransformOne(rawData[i]);
      if one.Failure? {
        FailureIsFinal(rawData[..i + 1], rawData[i + 1..]);
        assert rawData[..i + 1] + rawData[i + 1..] == rawData;
        return Failure(one.error);
      }
      assert TransformAll(rawData[..i + 1]) == Success(result + if one.value.Some? then [one.value.value] else []);
      if one.value.Some? {
        result := result + [one.value.value];
      } else {
        assert result + [] == result;
      }
      i := i + 1;
    }
    assert rawData[..i] == rawData;
    r := Success(result);
  }

  /** Once an element has thrown, later elements do not change the outcome. */
  lemma {:induction false} FailureIsFinal(raws: seq<Raw>, more: seq<Raw>)
    requires TransformAll(raws).Failure?
    ensures TransformAll(raws + more) == TransformAll(raws)
    decreases |more|
  {
    if more != [] {
      var init := raws + more[..|more| - 1];
      assert (raws + more)[..|raws + more| - 1] == init;
      FailureIsFinal(raws, more[..|more| - 1]);
      assert TransformAll(init).Failure?;
      assert raws + more != [];
      assert TransformAll(raws + more) == Failure(TransformAll(init).error);
    } else {
      assert raws + more == raws;
    }
  }

  /**
   * Output order follows input order, with exactly one input for each
   * element that yields one and none for the others.
   */
  lemma {:induction false} TransformKeepsOrder(raws: seq<Raw>)
    requires TransformAll(raws).Success?
    ensures |TransformAll(raws).value| == |Kept(raws)|
    ensures forall a, b :: 0 <= a < b < |Kept(raws)| ==> Kept(raws)[a] < Kept(raws)[b]
    ensures forall k :: 0 <= k < |Kept(raws)| ==>
      Kept(raws)[k] < |raws| && TransformOne(raws[Kept(raws)[k]]) == Success(Some(TransformAll(raws).value[k]))
    ensures forall j :: 0 <= j < |raws| && j !in Kept(raws) ==> TransformOne(raws[j]) == Success(None)
  {
    if raws != [] {
      var init := raws[..|raws| - 1];
      var last := raws[|raws| - 1];
      TransformKeepsOrder(init);
      forall j | 0 <= j < |init| ensures raws[j] == init[j] { }
      var prefix := TransformAll(init).value;
      var one := TransformOne(last);
      assert TransformAll(raws).value == prefix + if one.value.Some? then [one.value.value] else [];
      assert Kept(raws) == Kept(init) + if Produces(last) then [|raws| - 1] else [];
    }
  }

  /**
   * The transformation succeeds exactly when every element does; when it
   * fails, it reports the error of the first element that fails.
   */
  lemma {:induction false} TransformFailsAtFirstError(raws: seq<Raw>)
    ensures TransformAll(raws).Success? <==> forall j :: 0 <= j < |raws| ==> TransformOne(raws[j]).Success?
    ensures TransformAll(raws).Failure? ==>
      exists j :: 0 <= j < |raws| && TransformOne(raws[j]) == Failure(TransformAll(raws).error)
                  && forall i :: 0 <= i < j ==> TransformOne(raws[i]).Success?
  {
    if raws != [] {
      var init := raws[..|raws| - 1];
      TransformFailsAtFirstError(init);
      forall j | 0 <= j < |init| ensures raws[j] == init[j] { }
      if TransformAll(init).Success? && TransformOne(raws[|raws| - 1]).Failure? {
        assert TransformOne(raws[|raws| - 1]) == Failure(TransformAll(raws).error);
      }
    }
  }

  /**
   * The expression test and the sigil stripping are partners: a string is an
   * expression exactly when it is the sigil followed by some text, and
   * stripping gives back that text.
   */
  lemma IsExpressionExact(v: Raw, e: string)
    ensures IsExpression(v) <==> v.Str? && exists t :: v.s == ExpressionPrefix + t
    ensures IsExpression(v) ==> ExpressionPrefix + ExtractExpression(v.s) == v.s
    ensures IsExpression(Str(ExpressionPrefix + e)) && ExtractExpression(ExpressionPrefix + e) == e
  {
    if IsExpression(v) {
      assert v.s == ExpressionPrefix + v.s[|ExpressionPrefix|..];
    }
    forall t ensures (ExpressionPrefix + t)[..|ExpressionPrefix|] == ExpressionPrefix {
    }
    assert (ExpressionPrefix + e)[|ExpressionPrefix|..] == e;
  }

  /** Entries after the first one of a map element are never looked at. */
  lemma FirstEntryOnly(key: string, value: Raw, rest: seq<(string, Raw)>)
    ensures TransformOne(Map([(key, value)] + rest)) == TransformOne(Map([(key, value)]))
  {
  }

  /** getScopes, keyToTransform and keyToRegister. */
  function InputsRegistration(): (t: Registration)
    ensures BeforeExecutable in t.scopes && BeforeTask in t.scopes
    ensures |t.scopes| == 2 && t.scopes[0] == BeforeExecutable
    ensures t.keyToTransform.None? && t.keyToRegister.None?
  {
    Registration([BeforeExecutable, BeforeTask], None, None)
  }
}
