/**
 * The request validator of api/lib/utils.php: handleDataReceived checks a
 * payload against a resource's field schema, coerces the values it accepts
 * and collects every field's errors; extractValues keeps the values the
 * validation set.
 *
 * The date parsers (strtotime and date), filter_var's e-mail check and
 * number_format are not modelled: they are the functions of a `Library`
 * passed to the validator.
 */
module Utils {
  import opened Wrappers
  import opened PhpStrings
  import opened PhpNumbers
  import opened PhpArrays
  import opened ApiErrors
  import opened DecimalText
  import SqlText

  /** A field's value after validation: null, a text, or a boolean. */
  datatype Value = VNull | VStr(s: string) | VBool(b: bool)

  /** The `type` entry of a field. */
  datatype FieldType = TString | TInteger | TFloat | TDateTime | TDate | TTime | TBool | TEmail | TOther

  /** The `length` entry: absent, a byte count, or "precision,scale" for a float. */
  datatype Length = NoLength | Bytes(n: nat) | Decimal(precision: nat, scale: nat)

  /** One field of a resource's schema; `default` is None when the key is absent. */
  datatype FieldSpec = FieldSpec(
    required: bool,
    fieldType: FieldType,
    methods: seq<string>,
    minLength: nat,
    length: Length,
    default: Option<Value>,
    allowedValues: seq<string>,
    value: Value)

  /** Field name to field description, in declaration order. */
  type Schema = seq<(string, FieldSpec)>

  /** The data received: field name to its text, None for a JSON null. */
  type Payload = map<string, Option<string>>

  /** The library calls the validator makes; a parser yields None where the source gets false. */
  datatype Library = Library(
    checkDateTime: string -> Option<string>,
    checkDate: string -> Option<string>,
    checkTime: string -> Option<string>,
    isEmail: string -> bool,
    /** number_format((float) text, scale, '.', '') */
    formatFixed: (string, nat) -> string)

  /** What validating one field gives: its new value and its error messages. */
  datatype Outcome = Outcome(value: Value, errors: seq<string>)

  /** The `length` entry as text, as the error messages print it. */
  function LengthText(l: Length): string {
    match l
    case NoLength => ""
    case Bytes(n) => NatToString(n)
    case Decimal(p, s) => NatToString(p) + "," + NatToString(s)
  }

  /**
   * The schemas the validator handles: a float field declares "precision,scale",
   * and a string or integer field a plain byte count or nothing.
   */
  predicate WellFormed(params: Schema) {
    forall i :: 0 <= i < |params| ==> WellFormedField(params[i].1)
  }

  predicate WellFormedField(spec: FieldSpec) {
    && (spec.fieldType == TFloat ==> spec.length.Decimal?)
    && (spec.fieldType != TFloat ==> !spec.length.Decimal?)
  }

  /** in_array($x, $xs) on texts: PHP's loose `==`. */
  predicate InArrayLoose(x: string, xs: seq<string>) {
    exists i :: 0 <= i < |xs| && LooseEqualStrings(x, xs[i])
  }

  /** `$v == $a` for a validated value and a text. */
  predicate LooseEqualsText(v: Value, a: string) {
    match v
    case VNull => a == ""
    case VStr(s) => LooseEqualStrings(s, a)
    case VBool(b) => b == BoolCast(a)
  }

  predicate IsAllowed(v: Value, allowed: seq<string>) {
    exists i :: 0 <= i < |allowed| && LooseEqualsText(v, allowed[i])
  }

  /* ---------- Messages ---------- */

  const EmptyMessage := "Campo nulo ou vazio"
  const NumericMessage := "Campo deve ser do tipo num\U{E9}rico"
  const DateTimeMessage := "Campo deve ser no formato data e hora conforme ISO 8601"
  const DateMessage := "Campo deve ser do formato data conforme ISO 8601"
  const TimeMessage := "Campo deve ser do tipo hora conforme ISO 8601"
  const BoolMessage := "Campo deve ser do tipo booleano"
  const EmailMessage := "Campo deve ser um e-mail v\U{E1}lido"

  function TooShortMessage(minLength: nat, unit: string, data: string): string {
    "Campo menor que " + NatToString(minLength) + " " + unit + ". Valor informado: " + data
  }

  function TooLongMessage(length: nat, unit: string, data: string): string {
    "Campo maior que " + NatToString(length) + " " + unit + ". Valor informado: " + data
  }

  function NotAllowedMessage(allowed: seq<string>): string {
    "Campo com valor inesperado. Os valores esperados s\U{E3}o: " + SqlText.Join(allowed, ", ")
  }

  /* ---------- One field ---------- */

  /** A field whose non-empty `methods` list does not hold the request method is not looked at. */
  predicate Skipped(spec: FieldSpec, httpMethod: string) {
    |spec.methods| > 0 && !InArrayLoose(httpMethod, spec.methods)
  }

  /** A field is absent when it is missing, null, or only whitespace. */
  predicate Absent(payload: Payload, field: string) {
    field !in payload || payload[field].None? || Trim(payload[field].value) == ""
  }

  /** The byte-length checks of string and integer fields; `unit` names what is counted. */
  function SizeErrors(spec: FieldSpec, data: string, unit: string): seq<string> {
    (if spec.minLength > 0 && Utf8Length(data) < spec.minLength then [TooShortMessage(spec.minLength, unit, data)] else [])
    + (if spec.length.Bytes? && spec.length.n > 0 && Utf8Length(data) > spec.length.n
       then [TooLongMessage(spec.length.n, unit, data)] else [])
  }

  /** A parsed date, time or date-time: the canonical text, or false and a message. */
  function Parsed(parsed: Option<string>, message: string): Outcome {
    match parsed
    case Some(t) => Outcome(VStr(t), [])
    case None => Outcome(VBool(false), [message])
  }

  /** The type check of a present field: the coerced value and the type's errors. */
  function Typed(spec: FieldSpec, data: string, lib: Library): Outcome
    requires WellFormedField(spec)
  {
    match spec.fieldType
    case TString => Outcome(VStr(data), SizeErrors(spec, data, "caracteres"))
    case TInteger =>
      Outcome(VStr(data), SizeErrors(spec, data, "digitos") + (if IsNumeric(data) then [] else [NumericMessage]))
    case TFloat =>
      var fixed := FixValueToFloat(data);
      var p, s := spec.length.precision, spec.length.scale;
      Outcome(VStr(lib.formatFixed(fixed, s)),
        if Utf8Length(fixed) > p + s + 1 then ["Campo maior que " + LengthText(spec.length)] else [])
    case TDateTime => Parsed(lib.checkDateTime(data), DateTimeMessage)
    case TDate => Parsed(lib.checkDate(data), DateMessage)
    case TTime => Parsed(lib.checkTime(data), TimeMessage)
    case TBool =>
      var token := ToLowerAscii(data);
      if InArrayLoose(token, TrueTokens) then Outcome(VBool(true), [])
      else if InArrayLoose(token, FalseTokens) then Outcome(VBool(false), [])
      else Outcome(VStr(data), [BoolMessage])
    case TEmail => Outcome(VStr(data), if lib.isEmail(data) then [] else [EmailMessage])
    case TOther => Outcome(VStr(data), [])
  }

  /** A present field: the type check, then the allowed-values check on the coerced value. */
  function Present(spec: FieldSpec, data: string, lib: Library): Outcome
    requires WellFormedField(spec)
  {
    var t := Typed(spec, data, lib);
    if |spec.allowedValues| > 0 && !IsAllowed(t.value, spec.allowedValues)
    then Outcome(t.value, t.errors + [NotAllowedMessage(spec.allowedValues)])
    else t
  }

  /** An absent field: an error if it is required, else its default, else null. */
  function Missing(spec: FieldSpec, httpMethod: string): Outcome {
    if spec.default.None? && spec.required && httpMethod != "PUT" then Outcome(spec.value, [EmptyMessage])
    else if spec.default.Some? then Outcome(spec.default.value, [])
    else Outcome(VNull, [])
  }

  /** The validation of one field; None when it is skipped. */
  function CheckField(field: string, spec: FieldSpec, httpMethod: string, payload: Payload, lib: Library): Option<Outcome>
    requires WellFormedField(spec)
  {
    if Skipped(spec, httpMethod) then None
    else if Absent(payload, field) then Some(Missing(spec, httpMethod))
    else Some(Present(spec, payload[field].value, lib))
  }

  /* ---------- The whole schema ---------- */

  /** The schema entry after validation: only `value` changes, and only for a field that is looked at. */
  function Updated(e: (string, FieldSpec), httpMethod: string, payload: Payload, lib: Library): (string, FieldSpec)
    requires WellFormedField(e.1)
  {
    match CheckField(e.0, e.1, httpMethod, payload, lib)
    case None => e
    case Some(o) => (e.0, e.1.(value := o.value))
  }

  /** The per-field error lists, in schema order, for the fields that have errors. */
  function FieldErrors(params: Schema, httpMethod: string, payload: Payload, lib: Library): seq<(string, seq<string>)>
    requires WellFormed(params)
  {
    if |params| == 0 then []
    else
      var (field, spec) := params[|params| - 1];
      var before := FieldErrors(params[..|params| - 1], httpMethod, payload, lib);
      match CheckField(field, spec, httpMethod, payload, lib)
      case Some(o) => if |o.errors| > 0 then before + [(field, o.errors)] else before
      case None => before
  }

  /** handleDataReceived: InvalidParameters with every field's errors, or the schema with the new values. */
  function Handled(params: Schema, httpMethod: string, payload: Payload, lib: Library): Result<Schema, ApiError>
    requires WellFormed(params)
  {
    var errors := FieldErrors(params, httpMethod, payload, lib);
    if |errors| > 0 then Err(InvalidParameters(errors))
    else Ok(seq(|params|, i requires 0 <= i < |params| => Updated(params[i], httpMethod, payload, lib)))
  }

  /** The type check of a present field, as the loop body writes it. */
  method CheckType(spec: FieldSpec, data: string, lib: Library) returns (value: Value, errors: seq<string>)
    requires WellFormedField(spec)
    ensures Outcome(value, errors) == Typed(spec, data, lib)
  {
    errors := [];
    match spec.fieldType {
      case TString =>
        errors := SizeErrors(spec, data, "caracteres");
        value := VStr(data);
      case TInteger =>
        errors := SizeErrors(spec, data, "digitos");
        if !IsNumeric(data) {
          errors := errors + [NumericMessage];
        }
        value := VStr(data);
      case TFloat =>
        var fixed := FixValueToFloat(data);
        if Utf8Length(fixed) > spec.length.precision + spec.length.scale + 1 {
          errors := errors + ["Campo maior que " + LengthText(spec.length)];
        }
        value := VStr(lib.formatFixed(fixed, spec.length.scale));
      case TDateTime =>
        var o := Parsed(lib.checkDateTime(data), DateTimeMessage);
        value, errors := o.value, o.errors;
      case TDate =>
        var o := Parsed(lib.checkDate(data), DateMessage);
        value, errors := o.value, o.errors;
      case TTime =>
        var o := Parsed(lib.checkTime(data), TimeMessage);
        value, errors := o.value, o.errors;
      case TBool =>
        var token := ToLowerAscii(data);
        if InArrayLoose(token, TrueTokens) {
          value := VBool(true);
        } else if InArrayLoose(token, FalseTokens) {
          value := VBool(false);
        } else {
          value := VStr(data);
          errors := errors + [BoolMessage];
        }
      case TEmail =>
        if !lib.isEmail(data) {
          errors := errors + [EmailMessage];
        }
        value := VStr(data);
      case TOther =>
        value := VStr(data);
    }
  }

  /** The validation of one field, as the loop body writes it. */
  method ValidateField(field: string, spec: FieldSpec, httpMethod: string, payload: Payload, lib: Library)
    returns (r: Option<Outcome>)
    requires WellFormedField(spec)
    ensures r == CheckField(field, spec, httpMethod, payload, lib)
  {
    if |spec.methods| > 0 && !InArrayLoose(httpMethod, spec.methods) {
      return None;
    }
    if field !in payload || payload[field].None? || Trim(payload[field].value) == "" {
      var value := spec.value;
      var errors: seq<string> := [];
      if spec.default.None? && spec.required && httpMethod != "PUT" {
        errors := [EmptyMessage];
      } else if spec.default.Some? {
        value := spec.default.value;
      } else {
        value := VNull;
      }
      return Some(Outcome(value, errors));
    }
    var value, errors := CheckType(spec, payload[field].value, lib);
    if |spec.allowedValues| > 0 && !IsAllowed(value, spec.allowedValues) {
      errors := errors + [NotAllowedMessage(spec.allowedValues)];
    }
    return Some(Outcome(value, errors));
  }

  /**
   * handleDataReceived: every field is validated, errors are collected per
   * field without stopping, and the schema comes back with the new values
   * only when no field has an error.
   */
  method HandleDataReceived(params: Schema, httpMethod: string, payload: Payload, lib: Library)
    returns (r: Result<Schema, ApiError>)
    requires WellFormed(params)
    ensures r == Handled(params, httpMethod, payload, lib)
  {
    var errors: seq<(string, seq<string>)> := [];
    var newParams := params;
    for i := 0 to |params|
      invariant errors == FieldErrors(params[..i], httpMethod, payload, lib)
      invariant |newParams| == |params|
      invariant forall j :: 0 <= j < i ==> newParams[j] == Updated(params[j], httpMethod, payload, lib)
      invariant forall j :: i <= j < |params| ==> newParams[j] == params[j]
    {
      assert params[..i + 1][..i] == params[..i];
      var (field, spec) := params[i];
      var o := ValidateField(field, spec, httpMethod, payload, lib);
      if o.Some? {
        if |o.value.errors| > 0 {
          errors := errors + [(field, o.value.errors)];
        }
        newParams := newParams[i := (field, spec.(value := o.value.value))];
      }
    }
    assert params[..|params|] == params;
    if |errors| > 0 {
      r := Err(InvalidParameters(errors));
    } else {
      assert newParams == seq(|params|, i requires 0 <= i < |params| => Updated(params[i], httpMethod, payload, lib));
      r := Ok(newParams);
    }
  }

  /* ---------- What handleDataReceived guarantees ---------- */

  /** The error list has an entry exactly for each looked-at field with errors, carrying that field's messages. */
  lemma FieldErrorsSpec(params: Schema, httpMethod: string, payload: Payload, lib: Library)
    requires WellFormed(params)
    ensures forall i :: 0 <= i < |params| && HasErrors(params[i], httpMethod, payload, lib) ==>
      (params[i].0, ErrorsOf(params[i], httpMethod, payload, lib)) in FieldErrors(params, httpMethod, payload, lib)
    ensures forall e :: e in FieldErrors(params, httpMethod, payload, lib) ==>
      (exists i :: 0 <= i < |params| && HasErrors(params[i], httpMethod, payload, lib) && e == (params[i].0, ErrorsOf(params[i], httpMethod, payload, lib)))
  {
    FieldErrorsComplete(params, httpMethod, payload, lib);
    FieldErrorsSound(params, httpMethod, payload, lib);
  }

  /** Every looked-at field with errors has its entry. */
  lemma {:induction false} FieldErrorsComplete(params: Schema, httpMethod: string, payload: Payload, lib: Library)
    requires WellFormed(params)
    ensures forall i :: 0 <= i < |params| && HasErrors(params[i], httpMethod, payload, lib) ==>
      (params[i].0, ErrorsOf(params[i], httpMethod, payload, lib)) in FieldErrors(params, httpMethod, payload, lib)
  {
    if |params| > 0 {
      var init := params[..|params| - 1];
      assert WellFormed(init);
      FieldErrorsComplete(init, httpMethod, payload, lib);
      FieldErrorsLast(params, httpMethod, payload, lib);
      forall i | 0 <= i < |params| && HasErrors(params[i], httpMethod, payload, lib)
        ensures (params[i].0, ErrorsOf(params[i], httpMethod, payload, lib)) in FieldErrors(params, httpMethod, payload, lib)
      {
        if i < |init| {
          assert params[i] == init[i];
        }
      }
    }
  }

  /** Every entry belongs to a looked-at field with errors. */
  lemma {:induction false} FieldErrorsSound(params: Schema, httpMethod: string, payload: Payload, lib: Library)
    requires WellFormed(params)
    ensures forall e :: e in FieldErrors(params, httpMethod, payload, lib) ==>
      (exists i :: 0 <= i < |params| && HasErrors(params[i], httpMethod, payload, lib) && e == (params[i].0, ErrorsOf(params[i], httpMethod, payload, lib)))
  {
    if |params| > 0 {
      var init := params[..|params| - 1];
      var last := params[|params| - 1];
      assert WellFormed(init);
      FieldErrorsSound(init, httpMethod, payload, lib);
      FieldErrorsLast(params, httpMethod, payload, lib);
      forall e | e in FieldErrors(params, httpMethod, payload, lib)
        ensures exists i :: 0 <= i < |params| && HasErrors(params[i], httpMethod, payload, lib) && e == (params[i].0, ErrorsOf(params[i], httpMethod, payload, lib))
      {
        if e in FieldErrors(init, httpMethod, payload, lib) {
          var i :| 0 <= i < |init| && HasErrors(init[i], httpMethod, payload, lib) && e == (init[i].0, ErrorsOf(init[i], httpMethod, payload, lib));
          assert params[i] == init[i];
        } else {
          assert HasErrors(last, httpMethod, payload, lib) && e == (last.0, ErrorsOf(last, httpMethod, payload, lib));
        }
      }
    }
  }

  /** The error list grows by the last field's entry when that field has errors. */
  lemma FieldErrorsLast(params: Schema, httpMethod: string, payload: Payload, lib: Library)
    requires WellFormed(params) && |params| > 0
    ensures var last := params[|params| - 1];
      FieldErrors(params, httpMethod, payload, lib) == FieldErrors(params[..|params| - 1], httpMethod, payload, lib)
        + (if HasErrors(last, httpMethod, payload, lib) then [(last.0, ErrorsOf(last, httpMethod, payload, lib))] else [])
  {
  }

  /** The field is looked at and gets at least one error. */
  predicate HasErrors(e: (string, FieldSpec), httpMethod: string, payload: Payload, lib: Library)
    requires WellFormedField(e.1)
  {
    var o := CheckField(e.0, e.1, httpMethod, payload, lib);
    o.Some? && |o.value.errors| > 0
  }

  function ErrorsOf(e: (string, FieldSpec), httpMethod: string, payload: Payload, lib: Library): seq<string>
    requires WellFormedField(e.1)
  {
    match CheckField(e.0, e.1, httpMethod, payload, lib)
    case None => []
    case Some(o) => o.errors
  }

  /**
   * Validation fails exactly when some field has errors, and then it reports
   * every such field; it succeeds otherwise, changing only the `value` of the
   * fields it looked at.
   */
  lemma HandledSpec(params: Schema, httpMethod: string, payload: Payload, lib: Library)
    requires WellFormed(params)
    ensures var r := Handled(params, httpMethod, payload, lib);
      r.Err? <==> exists i :: 0 <= i < |params| && HasErrors(params[i], httpMethod, payload, lib)
    ensures var r := Handled(params, httpMethod, payload, lib);
      r.Err? ==> (r.error.InvalidParameters? && r.error.Status() == 400 &&
        forall i :: 0 <= i < |params| && HasErrors(params[i], httpMethod, payload, lib) ==>
          (params[i].0, ErrorsOf(params[i], httpMethod, payload, lib)) in r.error.errors)
    ensures var r := Handled(params, httpMethod, payload, lib);
      r.Ok? ==> (|r.value| == |params| && forall i :: 0 <= i < |params| ==>
        r.value[i].0 == params[i].0 && r.value[i].1 == params[i].1.(value := r.value[i].1.value))
  {
    FieldErrorsSpec(params, httpMethod, payload, lib);
    var errors := FieldErrors(params, httpMethod, payload, lib);
    if |errors| > 0 {
      var e := errors[0];
      assert e in errors;
    }
  }

  /** A skipped field is neither checked nor changed. */
  lemma SkippedFieldUntouched(params: Schema, httpMethod: string, payload: Payload, lib: Library, i: nat)
    requires WellFormed(params) && i < |params| && Skipped(params[i].1, httpMethod)
    ensures !HasErrors(params[i], httpMethod, payload, lib)
    ensures Updated(params[i], httpMethod, payload, lib) == params[i]
  {
  }

  /** A required field without a default that is absent from a non-PUT request makes validation fail with "Campo nulo ou vazio". */
  lemma MissingRequiredFails(params: Schema, httpMethod: string, payload: Payload, lib: Library, i: nat)
    requires WellFormed(params) && i < |params|
    requires !Skipped(params[i].1, httpMethod) && Absent(payload, params[i].0)
    requires params[i].1.required && params[i].1.default.None? && httpMethod != "PUT"
    ensures Handled(params, httpMethod, payload, lib).Err?
    ensures (params[i].0, [EmptyMessage]) in Handled(params, httpMethod, payload, lib).error.errors
  {
    HandledSpec(params, httpMethod, payload, lib);
  }

  /** An absent field with a default takes the default and gets no error. */
  lemma AbsentTakesDefault(e: (string, FieldSpec), httpMethod: string, payload: Payload, lib: Library)
    requires WellFormedField(e.1) && !Skipped(e.1, httpMethod) && Absent(payload, e.0) && e.1.default.Some?
    ensures CheckField(e.0, e.1, httpMethod, payload, lib) == Some(Outcome(e.1.default.value, []))
  {
  }

  /** An absent field that is optional, or absent from a PUT, and has no default becomes null without an error. */
  lemma AbsentOptionalIsNull(e: (string, FieldSpec), httpMethod: string, payload: Payload, lib: Library)
    requires WellFormedField(e.1) && !Skipped(e.1, httpMethod) && Absent(payload, e.0) && e.1.default.None?
    requires !e.1.required || httpMethod == "PUT"
    ensures CheckField(e.0, e.1, httpMethod, payload, lib) == Some(Outcome(VNull, []))
    ensures Updated(e, httpMethod, payload, lib) == (e.0, e.1.(value := VNull))
  {
  }

  /** The messages of the string and integer checks differ from each other. */
  lemma SizeMessagesDistinct(minLength: nat, length: nat, unit: string, data: string)
    ensures TooShortMessage(minLength, unit, data) != NumericMessage
    ensures TooLongMessage(length, unit, data) != NumericMessage
    ensures TooShortMessage(minLength, unit, data) != TooLongMessage(length, unit, data)
  {
    var short, long := TooShortMessage(minLength, unit, data), TooLongMessage(length, unit, data);
    assert short[6] == 'm' && short[7] == 'e';
    assert long[6] == 'm' && long[7] == 'a';
    assert NumericMessage[6] == 'd';
  }

  /**
   * A present string or integer field keeps its text; it is reported too short
   * or too long exactly when its byte length breaks a bound it declares, an
   * integer is reported exactly when it is not numeric, and without allowed
   * values it passes exactly when none of these applies.
   */
  lemma SizeRules(spec: FieldSpec, data: string, lib: Library)
    requires WellFormedField(spec) && (spec.fieldType == TString || spec.fieldType == TInteger) && spec.allowedValues == []
    ensures var o := Present(spec, data, lib);
      var unit := if spec.fieldType == TString then "caracteres" else "digitos";
      && o.value == VStr(data)
      && (TooShortMessage(spec.minLength, unit, data) in o.errors <==> spec.minLength > 0 && Utf8Length(data) < spec.minLength)
      && (spec.length.Bytes? ==>
            (TooLongMessage(spec.length.n, unit, data) in o.errors <==> spec.length.n > 0 && Utf8Length(data) > spec.length.n))
      && (NumericMessage in o.errors <==> spec.fieldType == TInteger && !IsNumeric(data))
      && (o.errors == [] <==>
            && (spec.minLength == 0 || Utf8Length(data) >= spec.minLength)
            && (spec.length.NoLength? || spec.length.n == 0 || Utf8Length(data) <= spec.length.n)
            && (spec.fieldType == TInteger ==> IsNumeric(data)))
  {
    var unit := if spec.fieldType == TString then "caracteres" else "digitos";
    SizeErrorsSpec(spec, data, unit);
    SizedPresent(spec, data, lib);
  }

  /** A present string or integer field without allowed values: its text, the size errors, then the numeric check. */
  lemma SizedPresent(spec: FieldSpec, data: string, lib: Library)
    requires WellFormedField(spec) && (spec.fieldType == TString || spec.fieldType == TInteger) && spec.allowedValues == []
    ensures Present(spec, data, lib) == Outcome(VStr(data),
      SizeErrors(spec, data, if spec.fieldType == TString then "caracteres" else "digitos")
      + (if spec.fieldType == TInteger && !IsNumeric(data) then [NumericMessage] else []))
  {
  }

  /** Each size message appears exactly when its bound is broken, and never the numeric message. */
  lemma SizeErrorsSpec(spec: FieldSpec, data: string, unit: string)
    requires !spec.length.Decimal?
    ensures var errors := SizeErrors(spec, data, unit);
      && (TooShortMessage(spec.minLength, unit, data) in errors <==> spec.minLength > 0 && Utf8Length(data) < spec.minLength)
      && (spec.length.Bytes? ==>
            (TooLongMessage(spec.length.n, unit, data) in errors <==> spec.length.n > 0 && Utf8Length(data) > spec.length.n))
      && NumericMessage !in errors
      && (errors == [] <==>
            (spec.minLength == 0 || Utf8Length(data) >= spec.minLength)
            && (spec.length.NoLength? || spec.length.n == 0 || Utf8Length(data) <= spec.length.n))
  {
    var n := if spec.length.Bytes? then spec.length.n else 0;
    SizeMessagesDistinct(spec.minLength, n, unit, data);
  }

  /** A field is looked at and its value is present. */
  predicate Received(e: (string, FieldSpec), httpMethod: string, payload: Payload) {
    !Skipped(e.1, httpMethod) && !Absent(payload, e.0)
  }

  /** The value a present field is coerced to before the allowed-values check. */
  function Coerced(e: (string, FieldSpec), payload: Payload, lib: Library): Value
    requires WellFormedField(e.1) && e.0 in payload && payload[e.0].Some?
  {
    Typed(e.1, payload[e.0].value, lib).value
  }

  /**
   * A received field whose coerced value loosely equals none of its allowed
   * values makes validation fail, and its errors list the allowed values.
   */
  lemma NotAllowedFails(params: Schema, httpMethod: string, payload: Payload, lib: Library, i: nat)
    requires WellFormed(params) && i < |params| && Received(params[i], httpMethod, payload)
    requires |params[i].1.allowedValues| > 0 && !IsAllowed(Coerced(params[i], payload, lib), params[i].1.allowedValues)
    ensures Handled(params, httpMethod, payload, lib).Err?
    ensures NotAllowedMessage(params[i].1.allowedValues) in ErrorsOf(params[i], httpMethod, payload, lib)
    ensures (params[i].0, ErrorsOf(params[i], httpMethod, payload, lib)) in Handled(params, httpMethod, payload, lib).error.errors
  {
    HandledSpec(params, httpMethod, payload, lib);
  }

  /** A received field without allowed values, or whose coerced value is allowed, gets only its type's outcome. */
  lemma AllowedValuePasses(e: (string, FieldSpec), httpMethod: string, payload: Payload, lib: Library)
    requires WellFormedField(e.1) && Received(e, httpMethod, payload)
    requires e.1.allowedValues == [] || IsAllowed(Coerced(e, payload, lib), e.1.allowedValues)
    ensures CheckField(e.0, e.1, httpMethod, payload, lib) == Some(Typed(e.1, payload[e.0].value, lib))
  {
  }

  /** A text that is not numeric loosely equals an allowed value only when it is that value. */
  lemma TextAllowedIff(data: string, allowed: seq<string>)
    requires !IsNumeric(data)
    ensures IsAllowed(VStr(data), allowed) <==> data in allowed
  {
    if data in allowed {
      var i :| 0 <= i < |allowed| && allowed[i] == data;
      assert LooseEqualsText(VStr(data), allowed[i]);
    }
  }

  /** "teste" sent for a string field that allows "a" and "b" is rejected with both listed. */
  lemma UnexpectedTextRejected(spec: FieldSpec, lib: Library)
    requires spec.fieldType == TString && spec.allowedValues == ["a", "b"] && WellFormedField(spec)
    ensures Present(spec, "teste", lib).errors ==
      SizeErrors(spec, "teste", "caracteres") + [NotAllowedMessage(["a", "b"])]
  {
    LetterStartNotNumeric("teste");
    TextAllowedIff("teste", ["a", "b"]);
  }

  /**
   * A token that starts with a letter is compared as text: "True", "S" and "y"
   * read as true, "FALSE" and "n" as false, and any other word is reported.
   */
  lemma BoolWords(spec: FieldSpec, data: string, lib: Library)
    requires spec.fieldType == TBool && spec.allowedValues == [] && WellFormedField(spec)
    requires IsWord(ToLowerAscii(data))
    ensures var t := ToLowerAscii(data);
      Present(spec, data, lib) ==
        if t in TrueTokens then Outcome(VBool(true), [])
        else if t in FalseTokens then Outcome(VBool(false), [])
        else Outcome(VStr(data), [BoolMessage])
  {
    WordInTokens(ToLowerAscii(data), TrueTokens);
    WordInTokens(ToLowerAscii(data), FalseTokens);
  }

  /** A word is loosely in a list exactly when it is in it. */
  lemma WordInTokens(t: string, xs: seq<string>)
    requires IsWord(t)
    ensures InArrayLoose(t, xs) <==> t in xs
  {
    LetterStartNotNumeric(t);
    if t in xs {
      var i :| 0 <= i < |xs| && xs[i] == t;
      assert LooseEqualStrings(t, xs[i]);
    }
  }

  /** The tokens read as true: "true", "s", "y" and any number equal to 1. */
  const TrueTokens: seq<string> := ["true", "1", "s", "y"]

  /** The tokens read as false: "false", "n" and any number equal to 0. */
  const FalseTokens: seq<string> := ["false", "0", "n"]

  /** A text starting with a lower-case letter, such as "true" or "n". */
  predicate IsWord(w: string) {
    |w| > 0 && 'a' <= w[0] <= 'z'
  }

  /** A number never loosely equals a word. */
  lemma NumberIsNotWord(t: string, w: string)
    requires IsNumeric(t) && IsWord(w)
    ensures !LooseEqualStrings(t, w)
  {
    LetterStartNotNumeric(w);
  }

  /** A number loosely equals a digit string exactly when their values agree. */
  lemma NumberEqualsDigits(t: string, d: string)
    requires IsNumeric(t) && |d| > 0 && AllDigits(d)
    ensures LooseEqualStrings(t, d) <==> PrefixValue(t) == DigitsValue(d) as real
  {
    DigitsAreNumeric(d);
  }

  /** A number is in a list of words and one digit string exactly when it equals that digit string's value. */
  lemma NumberInTokens(t: string, xs: seq<string>, k: nat)
    requires IsNumeric(t) && k < |xs| && |xs[k]| > 0 && AllDigits(xs[k])
    requires forall i :: 0 <= i < |xs| && i != k ==> IsWord(xs[i])
    ensures InArrayLoose(t, xs) <==> PrefixValue(t) == DigitsValue(xs[k]) as real
  {
    NumberEqualsDigits(t, xs[k]);
    if InArrayLoose(t, xs) {
      var i :| 0 <= i < |xs| && LooseEqualStrings(t, xs[i]);
      if i != k {
        NumberIsNotWord(t, xs[i]);
      }
    }
  }

  /** A numeric token matches a token of the true list exactly when it equals 1. */
  lemma NumericTrueToken(t: string)
    requires IsNumeric(t)
    ensures InArrayLoose(t, TrueTokens) <==> PrefixValue(t) == 1.0
  {
    assert DigitsValue(TrueTokens[1]) == 1;
    NumberInTokens(t, TrueTokens, 1);
  }

  /** A numeric token matches a token of the false list exactly when it equals 0. */
  lemma NumericFalseToken(t: string)
    requires IsNumeric(t)
    ensures InArrayLoose(t, FalseTokens) <==> PrefixValue(t) == 0.0
  {
    assert DigitsValue(FalseTokens[1]) == 0;
    NumberInTokens(t, FalseTokens, 1);
  }

  /**
   * A numeric token (such as "1.0", " 1" or "00") reads as true when it equals
   * 1, as false when it equals 0, and is reported otherwise.
   */
  lemma BoolNumbers(spec: FieldSpec, data: string, lib: Library)
    requires spec.fieldType == TBool && spec.allowedValues == [] && WellFormedField(spec)
    requires IsNumeric(ToLowerAscii(data))
    ensures var x := PrefixValue(ToLowerAscii(data));
      Present(spec, data, lib) ==
        if x == 1.0 then Outcome(VBool(true), [])
        else if x == 0.0 then Outcome(VBool(false), [])
        else Outcome(VStr(data), [BoolMessage])
  {
    NumericTrueToken(ToLowerAscii(data));
    NumericFalseToken(ToLowerAscii(data));
  }

  /**
   * A float field is too long exactly when its normalised text is longer than
   * precision + scale + 1 bytes: "1234,56" is stored as "1234.56" formatted
   * to the scale, and fits a length "6,2".
   */
  lemma FloatLengthCheck(spec: FieldSpec, lib: Library, w: string, f: string)
    requires spec.fieldType == TFloat && spec.allowedValues == [] && WellFormedField(spec)
    requires |w| > 0 && AllDigits(w) && |f| == 2 && AllDigits(f)
    ensures var o := Present(spec, w + "," + f, lib);
      o.value == VStr(lib.formatFixed(w + "." + f, spec.length.scale))
      && (o.errors == [] <==> |w| + 3 <= spec.length.precision + spec.length.scale + 1)
  {
    FloatPresent(spec, w + "," + f, lib);
    CommaCents(w, f);
    PointedDigitsAscii(w, f);
    AsciiLength(w + "." + f);
  }

  /** A present float field without allowed values: the formatted text, and an error when it is too long. */
  lemma FloatPresent(spec: FieldSpec, data: string, lib: Library)
    requires spec.fieldType == TFloat && spec.allowedValues == [] && WellFormedField(spec)
    ensures var t := FixValueToFloat(data);
      Present(spec, data, lib).value == VStr(lib.formatFixed(t, spec.length.scale))
      && (Present(spec, data, lib).errors == [] <==> Utf8Length(t) <= spec.length.precision + spec.length.scale + 1)
  {
  }

  /** Digits, a comma and two digits become the digits, a point and the two digits. */
  lemma CommaCents(w: string, f: string)
    requires |w| > 0 && AllDigits(w) && |f| == 2 && AllDigits(f)
    ensures FixValueToFloat(w + "," + f) == w + "." + f
  {
    assert w + "," + f == w + [','] + f;
    CentsAfterSeparator(w, ',', f);
    DigitsKept(w);
  }

  /** Digits, a point and digits are ASCII. */
  lemma PointedDigitsAscii(w: string, f: string)
    requires AllDigits(w) && AllDigits(f)
    ensures IsAscii(w + "." + f)
  {
    var t := w + "." + f;
    forall i | 0 <= i < |t|
      ensures t[i] as int < 0x80
    {
      if i < |w| {
        assert t[i] == w[i];
      } else if i == |w| {
        assert t[i] == '.';
      } else {
        assert t[i] == f[i - |w| - 1];
      }
    }
  }

  /* ---------- extractValues ---------- */

  /** extractValues: the fields whose value is set (not null), with that value, in schema order. */
  function Extracted(params: Schema): seq<(string, Value)> {
    if |params| == 0 then []
    else
      var (k, spec) := params[|params| - 1];
      var before := Extracted(params[..|params| - 1]);
      if spec.value != VNull then Put(before, k, spec.value) else before
  }

  method ExtractValues(params: Schema) returns (values: seq<(string, Value)>)
    ensures values == Extracted(params)
  {
    values := [];
    for i := 0 to |params|
      invariant values == Extracted(params[..i])
    {
      assert params[..i + 1][..i] == params[..i];
      var (k, spec) := params[i];
      if spec.value != VNull {
        values := Put(values, k, spec.value);
      }
    }
    assert params[..|params|] == params;
  }

  /**
   * With distinct field names, extractValues keeps exactly the fields whose
   * value is set, in schema order, each with its value.
   */
  lemma {:induction false} ExtractedSpec(params: Schema)
    requires DistinctKeys(params)
    ensures DistinctKeys(Extracted(params))
    ensures forall k, v :: (k, v) in Extracted(params) <==> (exists i :: 0 <= i < |params| && params[i].0 == k && params[i].1.value == v && v != VNull)
  {
    if |params| > 0 {
      var init := params[..|params| - 1];
      var (k, spec) := params[|params| - 1];
      assert DistinctKeys(init);
      ExtractedSpec(init);
      var before := Extracted(init);
      assert forall i :: 0 <= i < |init| ==> init[i] == params[i];
      assert forall i :: 0 <= i < |before| ==> before[i].0 != k by {
        forall i | 0 <= i < |before| ensures before[i].0 != k {
          var e := before[i];
          assert e in before;
          var j :| 0 <= j < |init| && init[j].0 == e.0 && init[j].1.value == e.1 && e.1 != VNull;
        }
      }
      if spec.value != VNull {
        PutShape(before, k, spec.value);
        assert IndexOf(before, k).None?;
      }
    }
  }

  /**
   * After a successful validation, a present string field that was looked at
   * is extracted with the text received.
   */
  lemma ValidatedStringIsExtracted(params: Schema, httpMethod: string, payload: Payload, lib: Library, i: nat)
    requires WellFormed(params) && DistinctKeys(params) && i < |params|
    requires params[i].1.fieldType == TString && !Skipped(params[i].1, httpMethod) && !Absent(payload, params[i].0)
    requires Handled(params, httpMethod, payload, lib).Ok?
    ensures (params[i].0, VStr(payload[params[i].0].value)) in Extracted(Handled(params, httpMethod, payload, lib).value)
  {
    HandledSpec(params, httpMethod, payload, lib);
    var out := Handled(params, httpMethod, payload, lib).value;
    assert Keys(out) == Keys(params);
    assert DistinctKeys(out) by {
      forall a, b | 0 <= a < b < |out| ensures out[a].0 != out[b].0 {
        assert out[a].0 == params[a].0 && out[b].0 == params[b].0;
      }
    }
    ExtractedSpec(out);
    assert out[i] == Updated(params[i], httpMethod, payload, lib);
  }
}
