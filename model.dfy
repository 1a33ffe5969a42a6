/**
 * The base model: mass assignment from request data, attribute labels and
 * the per-attribute error bag filled by validation rules.
 *
 * A concrete model's declared properties are the keys of its `properties`
 * map (an active record's `attributes()`, the database columns, is a separate
 * list) and its `labels()` override is the `labels` map. Request data arrives
 * as an ordered list of string pairs, as `getBody()` produces it.
 */
module Models {
  import opened Php
  import opened Strings

  const RULE_REQUIRED := "required"
  const RULE_EMAIL := "email"
  const RULE_MIN := "min"
  const RULE_MAX := "max"
  const RULE_MATCH := "match"
  const RULE_UNIQUE := "unique"

  // Each template is written as its literal text split around its placeholder.
  const RULE_REQUIRED_ERROR_MESSAGE := "This field is required"
  const RULE_EMAIL_ERROR_MESSAGE := "This field must be a valid email address"
  const RULE_MIN_ERROR_MESSAGE := "Minimum length of this field must be " + "{min}"
  const RULE_MAX_ERROR_MESSAGE := "Maximum length of this field must be " + "{max}"
  const RULE_MATCH_ERROR_MESSAGE := "This field must be the same as " + "{match}"
  const RULE_UNIQUE_ERROR_MESSAGE := "A record with this " + "{field}" + " already exists"

  /** The base class's own property, which `property_exists` also reports. */
  const ERRORS_PROPERTY := "errors"

  /** `errorMessages()`: the template of each of the six rules. */
  function ErrorMessages(): map<string, string> {
    map[
      RULE_REQUIRED := RULE_REQUIRED_ERROR_MESSAGE,
      RULE_EMAIL := RULE_EMAIL_ERROR_MESSAGE,
      RULE_MIN := RULE_MIN_ERROR_MESSAGE,
      RULE_MAX := RULE_MAX_ERROR_MESSAGE,
      RULE_MATCH := RULE_MATCH_ERROR_MESSAGE,
      RULE_UNIQUE := RULE_UNIQUE_ERROR_MESSAGE
    ]
  }

  /**
   * `errorMessage($rule)`: the rule's template; an unknown rule reads a
   * missing key, and the resulting null fails the `string` return type.
   */
  function ErrorMessage(rule: string): (r: Option<string>)
    ensures r.Some? <==> rule in {RULE_REQUIRED, RULE_EMAIL, RULE_MIN, RULE_MAX, RULE_MATCH, RULE_UNIQUE}
    ensures rule == RULE_UNIQUE ==> r == Some(RULE_UNIQUE_ERROR_MESSAGE)
    ensures rule == RULE_MIN ==> r == Some(RULE_MIN_ERROR_MESSAGE)
  {
    if rule in ErrorMessages() then Some(ErrorMessages()[rule]) else None
  }

  /** A PHP array of string keys to string values, in insertion order. */
  type Params = seq<(string, string)>

  predicate HasKey(params: Params, key: string) {
    exists i :: 0 <= i < |params| && params[i].0 == key
  }

  /** `$params['field'] ??= $attribute`: an absent key is appended at the end. */
  function WithField(params: Params, attribute: string): (r: Params)
    ensures HasKey(params, "field") ==> r == params
    ensures !HasKey(params, "field") ==> r == params + [("field", attribute)]
    ensures HasKey(r, "field")
  {
    if HasKey(params, "field") then params
    else
      var r := params + [("field", attribute)];
      assert r[|params|].0 == "field";
      r
  }

  /** `"{{$key}}"`: the key between braces. */
  function Placeholder(key: string): (p: string)
    ensures |p| == |key| + 2 && p[0] == '{' && p[|p| - 1] == '}'
  {
    "{" + key + "}"
  }

  /** The `foreach ... str_replace` loop: each placeholder replaced in turn, in parameter order. */
  function Fill(template: string, params: Params): string
    decreases |params|
  {
    if params == [] then template
    else Fill(ReplaceAll(template, Placeholder(params[0].0), params[0].1), params[1..])
  }

  /** The message `addErrorByRule` records, or none when the rule is unknown. */
  function RuleError(attribute: string, rule: string, params: Params): Option<string> {
    var template := ErrorMessage(rule);
    if template.None? then None else Some(Fill(template.value, WithField(params, attribute)))
  }

  /** A template without any `{` has nothing to replace. */
  lemma {:induction false} FillWithoutPlaceholders(template: string, params: Params)
    requires '{' !in template
    ensures Fill(template, params) == template
  {
    if params != [] {
      ReplaceAbsent(template, Placeholder(params[0].0), params[0].1);
      FillWithoutPlaceholders(template, params[1..]);
    }
  }

  /**
   * A unique-rule failure names the attribute in the message, unless the
   * caller supplied its own `field`.
   */
  lemma UniqueMessageNamesAttribute(attribute: string)
    ensures RuleError(attribute, RULE_UNIQUE, []) == Some("A record with this " + attribute + " already exists")
  {
    KnownRuleError(attribute, RULE_UNIQUE, RULE_UNIQUE_ERROR_MESSAGE, []);
    assert WithField([], attribute) == [("field", attribute)];
    assert Placeholder("field") == "{field}";
    FillOne(RULE_UNIQUE_ERROR_MESSAGE, "field", attribute);
    UniqueTemplateFilled(attribute);
  }

  /** A known rule's message is its template filled with the parameters and the `field` default. */
  lemma KnownRuleError(attribute: string, rule: string, template: string, params: Params)
    requires ErrorMessage(rule) == Some(template)
    ensures RuleError(attribute, rule, params) == Some(Fill(template, WithField(params, attribute)))
  {
  }

  /** Filling with a single parameter is one replacement. */
  lemma FillOne(template: string, key: string, value: string)
    ensures Fill(template, [(key, value)]) == ReplaceAll(template, Placeholder(key), value)
  {
    var ps := [(key, value)];
    assert ps[1..] == [];
  }

  lemma UniqueTemplateFilled(attribute: string)
    ensures ReplaceAll(RULE_UNIQUE_ERROR_MESSAGE, "{field}", attribute) == "A record with this " + attribute + " already exists"
  {
    var a := "A record with this ";
    var b := " already exists";
    assert '{' !in b;
    assert '{' !in a;
    assert RULE_UNIQUE_ERROR_MESSAGE == a + "{field}" + b;
    ReplaceFirst(a, "{field}", b, attribute);
    ReplaceAbsent(b, "{field}", attribute);
  }

  /** A min-rule failure states the bound; the `field` default then finds nothing left to replace. */
  lemma MinMessageStatesBound(attribute: string, min: string)
    requires '{' !in min
    ensures RuleError(attribute, RULE_MIN, [(RULE_MIN, min)]) == Some("Minimum length of this field must be " + min)
  {
    var params := [(RULE_MIN, min)];
    KnownRuleError(attribute, RULE_MIN, RULE_MIN_ERROR_MESSAGE, params);
    assert !HasKey(params, "field") by {
      assert params[0].0 != "field";
    }
    var ps := WithField(params, attribute);
    assert ps[0] == (RULE_MIN, min) && ps[1..] == [("field", attribute)];
    var once := MinTemplateFilled(min);
    FillWithoutPlaceholders(once, ps[1..]);
  }

  lemma MinTemplateFilled(min: string) returns (once: string)
    requires '{' !in min
    ensures once == "Minimum length of this field must be " + min
    ensures ReplaceAll(RULE_MIN_ERROR_MESSAGE, Placeholder(RULE_MIN), min) == once
    ensures '{' !in once
  {
    var a := "Minimum length of this field must be ";
    assert '{' !in a;
    assert Placeholder(RULE_MIN) == "{min}";
    assert RULE_MIN_ERROR_MESSAGE == a + "{min}" + "";
    ReplaceFirst(a, "{min}", "", min);
    ReplaceAbsent("", "{min}", min);
    once := a + min;
  }

  /** A `field` the caller supplies is used instead of the attribute name. */
  lemma SuppliedFieldWins(attribute: string, field: string)
    ensures RuleError(attribute, RULE_UNIQUE, [("field", field)]) == RuleError(field, RULE_UNIQUE, [])
  {
    var params := [("field", field)];
    assert params[0].0 == "field";
    assert WithField(params, attribute) == params == WithField([], field);
  }

  // ------------------------------------------------------------- loadData

  datatype Loaded = Loaded(properties: map<string, string>, complete: bool)

  /**
   * `loadData`: each key naming a declared property is assigned, in data
   * order, others are skipped. The inherited `errors` property also
   * exists; assigning it a string fails its `array` type, which ends the
   * load with the earlier keys already assigned.
   */
  function Load(properties: map<string, string>, data: Params): Loaded {
    if data == [] then Loaded(properties, true)
    else if data[0].0 == ERRORS_PROPERTY then Loaded(properties, false)
    else
      var key := data[0].0;
      Load(if key in properties then properties[key := data[0].1] else properties, data[1..])
  }

  /** The value the last occurrence of `key` in the data carries. */
  function LastValue(data: Params, key: string): Option<string> {
    if data == [] then None
    else if data[|data| - 1].0 == key then Some(data[|data| - 1].1)
    else LastValue(data[..|data| - 1], key)
  }

  /** Loading never adds or removes a property. */
  lemma {:induction false} LoadKeepsProperties(properties: map<string, string>, data: Params)
    ensures Load(properties, data).properties.Keys == properties.Keys
  {
    if data != [] && data[0].0 != ERRORS_PROPERTY {
      var key := data[0].0;
      LoadKeepsProperties(if key in properties then properties[key := data[0].1] else properties, data[1..]);
    }
  }

  /**
   * A complete load leaves each property at the last value the data gives
   * it, and properties the data does not mention as they were.
   */
  lemma {:induction false} LoadTakesLastValue(properties: map<string, string>, data: Params, key: string)
    requires key in properties
    requires Load(properties, data).complete
    ensures key in Load(properties, data).properties
    ensures Load(properties, data).properties[key] ==
      if LastValue(data, key).Some? then LastValue(data, key).value else properties[key]
  {
    if data != [] {
      var k := data[0].0;
      var next := if k in properties then properties[k := data[0].1] else properties;
      LoadTakesLastValue(next, data[1..], key);
      LastValueCons(data, key);
    }
  }

  lemma {:induction false} LastValueCons(data: Params, key: string)
    requires data != []
    ensures LastValue(data, key) ==
      if LastValue(data[1..], key).Some? then LastValue(data[1..], key)
      else if data[0].0 == key then Some(data[0].1) else None
    decreases |data|
  {
    if |data| == 1 {
      assert data[1..] == [];
      assert data[..0] == [];
    } else {
      assert data[..|data| - 1][1..] == data[1..][..|data[1..]| - 1];
      LastValueCons(data[..|data| - 1], key);
    }
  }

  /** Loading the same data twice changes nothing the first load did not. */
  lemma {:induction false} LoadIdempotent(properties: map<string, string>, data: Params)
    requires Load(properties, data).complete
    ensures Load(Load(properties, data).properties, data) == Load(properties, data)
  {
    var once := Load(properties, data).properties;
    var twice := Load(once, data);
    LoadKeepsProperties(properties, data);
    LoadCompleteness(once, data, properties);
    LoadKeepsProperties(once, data);
    forall key | key in once
      ensures twice.properties[key] == once[key]
    {
      LoadTakesLastValue(properties, data, key);
      LoadTakesLastValue(once, data, key);
    }
  }

  /** Whether a load completes depends only on the data. */
  lemma {:induction false} LoadCompleteness(a: map<string, string>, data: Params, b: map<string, string>)
    ensures Load(a, data).complete == Load(b, data).complete
  {
    if data != [] && data[0].0 != ERRORS_PROPERTY {
      var k := data[0].0;
      LoadCompleteness(if k in a then a[k := data[0].1] else a, data[1..], if k in b then b[k := data[0].1] else b);
    }
  }

  // ------------------------------------------------------------ error bag

  /** `$this->errors[$attribute] ?? []`. */
  function ErrorsOf(errors: map<string, seq<string>>, attribute: string): seq<string> {
    if attribute in errors then errors[attribute] else []
  }

  /** `$this->errors[$attribute][] = $message`. */
  function Appended(errors: map<string, seq<string>>, attribute: string, message: string): map<string, seq<string>> {
    errors[attribute := ErrorsOf(errors, attribute) + [message]]
  }

  /** `getFirstError`: the first message, or `''`. */
  function FirstError(errors: map<string, seq<string>>, attribute: string): string {
    var es := ErrorsOf(errors, attribute);
    if es == [] then "" else es[0]
  }

  /** Adding an error keeps the earlier ones for that attribute and leaves other attributes alone. */
  lemma AppendKeepsEarlier(errors: map<string, seq<string>>, attribute: string, message: string, other: string)
    requires other != attribute
    ensures ErrorsOf(Appended(errors, attribute, message), attribute) == ErrorsOf(errors, attribute) + [message]
    ensures ErrorsOf(Appended(errors, attribute, message), other) == ErrorsOf(errors, other)
    ensures |Appended(errors, attribute, message)| > 0
  {
    assert attribute in Appended(errors, attribute, message);
  }

  /** The first error is the first one ever added: later additions never change it. */
  lemma FirstErrorIsOldest(errors: map<string, seq<string>>, attribute: string, message: string)
    ensures FirstError(Appended(errors, attribute, message), attribute) ==
      if ErrorsOf(errors, attribute) == [] then message else FirstError(errors, attribute)
  {
  }

  /** The model's property values, labels and error bag. */
  class Model {
    var properties: map<string, string>
    const labels: map<string, string>
    var errors: map<string, seq<string>>

    constructor (properties: map<string, string>, labels: map<string, string>)
      ensures this.properties == properties && this.labels == labels && errors == map[]
    {
      this.properties := properties;
      this.labels := labels;
      errors := map[];
    }

    /** `loadData`; `complete` is false when the load stopped at an `errors` key. */
    method LoadData(data: Params) returns (complete: bool)
      modifies this`properties
      ensures Load(old(properties), data) == Loaded(properties, complete)
    {
      var i := 0;
      while i < |data|
        invariant i <= |data|
        invariant Load(properties, data[i..]) == Load(old(properties), data)
      {
        assert data[i..][1..] == data[i + 1..];
        var (key, value) := data[i];
        if key == ERRORS_PROPERTY {
          return false;
        }
        if key in properties {
          properties := properties[key := value];
        }
        i := i + 1;
      }
      assert data[i..] == [];
      complete := true;
    }

    /** `getLabel`: the defined label, else the attribute name itself. */
    function GetLabel(attribute: string): (text: string)
      ensures attribute in labels ==> text == labels[attribute]
      ensures attribute !in labels ==> text == attribute
    {
      if attribute in labels then labels[attribute] else attribute
    }

    /** `addErrorByRule`; `known` is false for a rule without a template, which records nothing. */
    method AddErrorByRule(attribute: string, rule: string, params: Params) returns (known: bool)
      modifies this`errors
      ensures var message := RuleError(attribute, rule, params);
        known == message.Some? &&
        errors == if known then Appended(old(errors), attribute, message.value) else old(errors)
    {
      var ps := WithField(params, attribute);
      var template := ErrorMessage(rule);
      if template.None? {
        return false;
      }
      var errorMessage := template.value;
      var i := 0;
      while i < |ps|
        invariant i <= |ps|
        invariant Fill(errorMessage, ps[i..]) == Fill(template.value, ps)
      {
        assert ps[i..][1..] == ps[i + 1..];
        errorMessage := ReplaceAll(errorMessage, Placeholder(ps[i].0), ps[i].1);
        i := i + 1;
      }
      assert ps[i..] == [];
      AddError(attribute, errorMessage);
      known := true;
    }

    /** `addError`: appends to the attribute's messages. */
    method AddError(attribute: string, message: string)
      modifies this`errors
      ensures errors == Appended(old(errors), attribute, message)
    {
      errors := errors[attribute := (if attribute in errors then errors[attribute] else []) + [message]];
    }

    /** `hasError`: `false` (None) without errors, otherwise the messages. */
    function HasError(attribute: string): (r: Option<seq<string>>)
      reads this
      ensures r.None? <==> attribute !in errors
      ensures r.Some? ==> r.value == ErrorsOf(errors, attribute)
    {
      if attribute in errors then Some(errors[attribute]) else None
    }

    function GetFirstError(attribute: string): (r: string)
      reads this
      ensures r == FirstError(errors, attribute)
    {
      var es := if attribute in errors then errors[attribute] else [];
      if |es| > 0 then es[0] else ""
    }

    /** `validate`'s verdict: valid exactly when no error was recorded. */
    predicate IsValid()
      reads this
    {
      |errors| == 0
    }
  }

  /** Once any error is recorded the model is not valid, and the attribute reports its messages. */
  lemma AddedErrorIsReported(errors: map<string, seq<string>>, attribute: string, message: string)
    ensures var after := Appended(errors, attribute, message);
      |after| > 0 && attribute in after && after[attribute] != [] &&
      after[attribute][|after[attribute]| - 1] == message
  {
  }

  /**
   * `validate` returns true exactly when no attribute reports an error, and then
   * every attribute's first error is the empty string.
   */
  lemma {:induction false} ValidExactlyWithoutErrors(model: Model)
    ensures model.IsValid() <==> forall attribute :: model.HasError(attribute).None?
    ensures model.IsValid() ==> forall attribute :: model.GetFirstError(attribute) == ""
  {
    if !model.IsValid() {
      var attribute :| attribute in model.errors;
      assert model.HasError(attribute).Some?;
    }
  }
}
