/** The client's form validation: `FormValidator` with its per-rule check, the predefined
    rules, the person form's schema and the `validateField` of `useFormValidation`.
    Regular expressions become predicates on strings; what `new Date(...)` makes of a value
    and the current time are parameters of the date rules. */
module FormValidation {
  import opened Collections
  import opened Text

  /** A form value as the validator distinguishes it. `Scalar` stands for a number, a
      boolean, a date or an object, with its JavaScript truthiness. */
  datatype Value =
    | Null
    | Undefined
    | Str(s: string)
    | Arr(length: nat)
    | Scalar(truthy: bool)

  /** `ValidationRule`. An absent or zero length limit is switched off, as JavaScript
      truthiness has it; a pattern is the test of its regular expression. */
  datatype Rule = Rule(
    required: bool,
    minLength: Option<int>,
    maxLength: Option<int>,
    pattern: Option<string -> bool>,
    custom: Option<Value -> Option<string>>,
    message: Option<string>)

  /** A schema entry: one rule or a list of them. */
  datatype RuleSet = One(rule: Rule) | Many(rules: seq<Rule>)

  function RulesOf(rs: RuleSet): seq<Rule>
  {
    match rs
    case One(rule) => [rule]
    case Many(rules) => rules
  }

  /** `isEmpty`. */
  predicate IsEmpty(v: Value)
  {
    v.Null? || v.Undefined? || v == Str("") || v == Arr(0)
  }

  /** `!value` */
  predicate Falsy(v: Value)
  {
    v.Null? || v.Undefined? || v == Str("") || v == Scalar(false)
  }

  /** A string that JavaScript treats as true: present and non-empty. */
  predicate Truthy(s: Option<string>)
  {
    s.Some? && s.value != ""
  }

  predicate LimitSet(n: Option<int>)
  {
    n.Some? && n.value != 0
  }

  /** `message || fallback`. */
  function MessageOr(message: Option<string>, fallback: string): (r: string)
    ensures fallback != "" ==> r != ""
    ensures r == fallback || (Truthy(message) && r == message.value)
  {
    if Truthy(message) then message.value else fallback
  }

  /** `.replace(/([A-Z])/g, ' $1')`: a space before every capital letter. */
  function SpaceBeforeCapitals(s: string): string
  {
    if s == [] then []
    else (if IsAsciiUpper(s[0]) then [' ', s[0]] else [s[0]]) + SpaceBeforeCapitals(s[1..])
  }

  /** `.replace(/^./, str => str.toUpperCase())`; `.` does not match a line terminator. */
  function CapitaliseFirst(s: string): (r: string)
    ensures |r| == |s|
    ensures |s| > 0 ==> r[1..] == s[1..]
    ensures |s| > 0 && !IsLineTerminator(s[0]) ==> r[0] == ToUpper(s[0])
    ensures |s| > 0 && IsLineTerminator(s[0]) ==> r == s
  {
    if s != [] && !IsLineTerminator(s[0]) then [ToUpper(s[0])] + s[1..] else s
  }

  /** `formatFieldName`: a camel-case field name turned into words. */
  function FormatFieldName(field: string): string
  {
    Trim(CapitaliseFirst(SpaceBeforeCapitals(field)))
  }

  /** Spacing out keeps the last character of a non-empty name last. */
  lemma {:induction false} SpaceBeforeCapitalsLast(s: string)
    requires s != []
    ensures var t := SpaceBeforeCapitals(s); t != [] && t[|t| - 1] == s[|s| - 1]
  {
    var head := if IsAsciiUpper(s[0]) then [' ', s[0]] else [s[0]];
    if |s| > 1 {
      SpaceBeforeCapitalsLast(s[1..]);
    } else {
      assert s[1..] == [];
    }
  }

  /** A camel-case name that starts with a small letter and does not end in white space
      comes out as its first letter in capitals, followed by the rest spaced out; the
      trim then removes nothing. */
  lemma FormatFieldNameCamelCase(field: string)
    requires field != [] && IsAsciiLower(field[0]) && !IsWhitespace(field[|field| - 1])
    ensures FormatFieldName(field) == [ToUpper(field[0])] + SpaceBeforeCapitals(field[1..])
  {
    var spaced := SpaceBeforeCapitals(field);
    assert spaced == [field[0]] + SpaceBeforeCapitals(field[1..]);
    SpaceBeforeCapitalsLast(field);
    var cap := CapitaliseFirst(spaced);
    assert cap == [ToUpper(field[0])] + SpaceBeforeCapitals(field[1..]);
    assert !IsWhitespace(cap[|cap| - 1]) by {
      if |cap| > 1 {
        assert cap[|cap| - 1] == cap[1..][|cap| - 2] == spaced[1..][|cap| - 2] == field[|field| - 1];
      }
    }
    TrimUnchanged(cap);
  }

  /** Spacing out works word by word. */
  lemma {:induction false} SpaceBeforeCapitalsAppend(a: string, b: string)
    ensures SpaceBeforeCapitals(a + b) == SpaceBeforeCapitals(a) + SpaceBeforeCapitals(b)
  {
    if a != [] {
      assert (a + b)[1..] == a[1..] + b;
      SpaceBeforeCapitalsAppend(a[1..], b);
    } else {
      assert a + b == b;
    }
  }

  /** A word in small letters is left as it is; one that starts with a capital gets a
      space in front. */
  lemma {:induction false} SpaceBeforeCapitalsWord(w: string)
    requires w != [] && forall i :: 1 <= i < |w| ==> IsAsciiLower(w[i])
    ensures SpaceBeforeCapitals(w) == (if IsAsciiUpper(w[0]) then [' '] + w else w)
  {
    if |w| > 1 {
      SpaceBeforeCapitalsWord(w[1..]);
    }
  }

  /** Spacing out a word in small letters followed by one that starts with a capital
      puts one space between them. */
  lemma SpacedTwoWords(first: string, second: string)
    requires forall i :: 0 <= i < |first| ==> IsAsciiLower(first[i])
    requires second != [] && IsAsciiUpper(second[0])
    requires forall i :: 1 <= i < |second| ==> IsAsciiLower(second[i])
    ensures SpaceBeforeCapitals(first + second) == first + [' '] + second
  {
    SpaceBeforeCapitalsAppend(first, second);
    if first != [] {
      SpaceBeforeCapitalsWord(first);
    }
    SpaceBeforeCapitalsWord(second);
  }

  /** The same with a third word that starts with a capital. */
  lemma SpacedThreeWords(first: string, second: string, third: string)
    requires forall i :: 0 <= i < |first| ==> IsAsciiLower(first[i])
    requires second != [] && IsAsciiUpper(second[0])
    requires forall i :: 1 <= i < |second| ==> IsAsciiLower(second[i])
    requires third != [] && IsAsciiUpper(third[0])
    requires forall i :: 1 <= i < |third| ==> IsAsciiLower(third[i])
    ensures SpaceBeforeCapitals(first + second + third) == first + [' '] + second + [' '] + third
  {
    SpacedTwoWords(first, second);
    SpaceBeforeCapitalsAppend(first + second, third);
    SpaceBeforeCapitalsWord(third);
  }

  /** After its first letter, a camel-case name of two words, the second starting at `k`,
      is spaced out into the rest of the first word, a space and the second word. */
  lemma SpacedTwoWordTail(field: string, k: nat)
    requires 1 < k < |field| && IsAsciiUpper(field[k])
    requires forall i :: 0 <= i < |field| && i != k ==> IsAsciiLower(field[i])
    ensures SpaceBeforeCapitals(field[1..]) == field[1..k] + [' '] + field[k..]
  {
    var first, second := field[1..k], field[k..];
    assert forall i :: 0 <= i < |first| ==> first[i] == field[i + 1];
    assert forall i :: 0 <= i < |second| ==> second[i] == field[i + k];
    SpacedTwoWords(first, second);
    assert field[1..] == first + second;
  }

  /** The same for three words, the second starting at `k` and the third at `m`. */
  lemma SpacedThreeWordTail(field: string, k: nat, m: nat)
    requires 1 < k < m < |field| && IsAsciiUpper(field[k]) && IsAsciiUpper(field[m])
    requires forall i :: 0 <= i < |field| && i != k && i != m ==> IsAsciiLower(field[i])
    ensures SpaceBeforeCapitals(field[1..])
         == field[1..k] + [' '] + field[k..m] + [' '] + field[m..]
  {
    var first, second, third := field[1..k], field[k..m], field[m..];
    assert forall i :: 0 <= i < |first| ==> first[i] == field[i + 1];
    assert forall i :: 0 <= i < |second| ==> second[i] == field[i + k];
    assert forall i :: 0 <= i < |third| ==> third[i] == field[i + m];
    SpacedThreeWords(first, second, third);
    assert field[1..] == first + second + third;
  }

  /** A camel-case name of two words comes out as the two words, the first capitalised,
      with a space between them. */
  lemma FormatTwoWords(field: string, k: nat)
    requires 1 < k < |field| && IsAsciiUpper(field[k])
    requires forall i :: 0 <= i < |field| && i != k ==> IsAsciiLower(field[i])
    ensures FormatFieldName(field) == [ToUpper(field[0])] + (field[1..k] + [' '] + field[k..])
  {
    SpacedTwoWordTail(field, k);
    FormatFieldNameCamelCase(field);
  }

  /** The same for three words. */
  lemma FormatThreeWords(field: string, k: nat, m: nat)
    requires 1 < k < m < |field| && IsAsciiUpper(field[k]) && IsAsciiUpper(field[m])
    requires forall i :: 0 <= i < |field| && i != k && i != m ==> IsAsciiLower(field[i])
    ensures FormatFieldName(field)
         == [ToUpper(field[0])] + (field[1..k] + [' '] + field[k..m] + [' '] + field[m..])
  {
    SpacedThreeWordTail(field, k, m);
    FormatFieldNameCamelCase(field);
  }

  /** The field names of the person form come out as the messages name them. */
  lemma FormatFirstName(field: string)
    requires field == "firstName"
    ensures FormatFieldName(field) == "First Name"
  {
    FormatTwoWords(field, 5);
    FirstNameWords(field);
  }

  lemma FormatPhoneNumber(field: string)
    requires field == "phoneNumber"
    ensures FormatFieldName(field) == "Phone Number"
  {
    FormatTwoWords(field, 5);
    PhoneNumberWords(field);
  }

  lemma FormatDateOfBirth(field: string)
    requires field == "dateOfBirth"
    ensures FormatFieldName(field) == "Date Of Birth"
  {
    FormatThreeWords(field, 4, 6);
    DateOfBirthWords(field);
  }

  // The words of each example, spelt out apart from the formatting itself.

  lemma FirstNameWords(field: string)
    requires field == "firstName"
    ensures [ToUpper(field[0])] + (field[1..5] + [' '] + field[5..]) == "First Name"
  {
  }

  lemma PhoneNumberWords(field: string)
    requires field == "phoneNumber"
    ensures [ToUpper(field[0])] + (field[1..5] + [' '] + field[5..]) == "Phone Number"
  {
  }

  lemma DateOfBirthWords(field: string)
    requires field == "dateOfBirth"
    ensures [ToUpper(field[0])] + (field[1..4] + [' '] + field[4..6] + [' '] + field[6..])
         == "Date Of Birth"
  {
  }

  /** Spacing the words out inserts nothing but spaces: removing the spaces gives back
      what removing them from the field name gives. */
  lemma {:induction false} SpaceBeforeCapitalsOnlySpaces(s: string)
    ensures RemoveAll(SpaceBeforeCapitals(s), ' ') == RemoveAll(s, ' ')
  {
    if s != [] {
      SpaceBeforeCapitalsOnlySpaces(s[1..]);
      var head := if IsAsciiUpper(s[0]) then [' ', s[0]] else [s[0]];
      var rest := SpaceBeforeCapitals(s[1..]);
      assert SpaceBeforeCapitals(s) == head + rest;
      RemoveAllAppend(head, rest, ' ');
      assert s == [s[0]] + s[1..];
      RemoveAllAppend([s[0]], s[1..], ' ');
      if IsAsciiUpper(s[0]) {
        assert head == [' '] + [s[0]];
        RemoveAllAppend([' '], [s[0]], ' ');
        assert RemoveAll([' '], ' ') == [];
      }
    }
  }

  /** After spacing, every capital letter follows a space. */
  lemma {:induction false} SpaceBeforeCapitalsSeparates(s: string)
    ensures forall i :: 0 <= i < |SpaceBeforeCapitals(s)| && IsAsciiUpper(SpaceBeforeCapitals(s)[i]) ==>
      i > 0 && SpaceBeforeCapitals(s)[i - 1] == ' '
  {
    if s != [] {
      SpaceBeforeCapitalsSeparates(s[1..]);
      var head := if IsAsciiUpper(s[0]) then [' ', s[0]] else [s[0]];
      var rest := SpaceBeforeCapitals(s[1..]);
      var r := SpaceBeforeCapitals(s);
      assert r == head + rest;
      assert forall j :: 0 <= j < |rest| && IsAsciiUpper(rest[j]) ==> j > 0 && rest[j - 1] == ' ';
      forall i | 0 <= i < |r| && IsAsciiUpper(r[i])
        ensures i > 0 && r[i - 1] == ' '
      {
        if i >= |head| {
          var j := i - |head|;
          assert r[i] == rest[j];
          assert j > 0 && rest[j - 1] == ' ';
          assert r[i - 1] == rest[j - 1];
        } else if IsAsciiUpper(s[0]) {
          assert r[0] == ' ' && r[1] == s[0];
        }
      }
    }
  }

  /** The check of a rule that a value fails; a custom check carries what it reported. */
  datatype Check =
    | Required
    | MinLength(min: int)
    | MaxLength(max: int)
    | Format
    | Custom(report: string)

  /** The checks of `validateField` in their order: `required` on an empty value, then (an
      empty value passing every other check) the length limits and the pattern on a string,
      then the custom check, whose empty report counts as no error. */
  function FailedCheck(v: Value, rule: Rule): (c: Option<Check>)
    ensures c == Some(Required) <==> rule.required && IsEmpty(v)
    ensures IsEmpty(v) && !rule.required ==> c.None?
    ensures c.Some? && c.value.Custom? ==>
      rule.custom.Some? && rule.custom.value(v) == Some(c.value.report) && c.value.report != ""
  {
    if rule.required && IsEmpty(v) then Some(Required)
    else if IsEmpty(v) && !rule.required then None
    else if v.Str? && LimitSet(rule.minLength) && |v.s| < rule.minLength.value then Some(MinLength(rule.minLength.value))
    else if v.Str? && LimitSet(rule.maxLength) && |v.s| > rule.maxLength.value then Some(MaxLength(rule.maxLength.value))
    else if rule.pattern.Some? && v.Str? && !rule.pattern.value(v.s) then Some(Format)
    else if rule.custom.Some? && Truthy(rule.custom.value(v)) then Some(Custom(rule.custom.value(v).value))
    else None
  }

  /** The message of a failed built-in check when the rule gives none. */
  function DefaultMessage(field: string, c: Check): (r: string)
    requires !c.Custom?
    ensures r != ""
  {
    var name := FormatFieldName(field);
    match c
    case Required => name + " is required"
    case MinLength(n) => name + " must be at least " + IntToString(n) + " characters"
    case MaxLength(n) => name + " must be no more than " + IntToString(n) + " characters"
    case Format => name + " format is invalid"
  }

  /** `FormValidator.validateField`: the message of the first check of one rule that the
      value fails. A built-in check reports the rule's message or its default one, a custom
      check its own report. Every message is non-empty, so the callers' `if (error)` sees
      every failure. */
  function ValidateField(field: string, v: Value, rule: Rule): (r: Option<string>)
    ensures r.None? <==> FailedCheck(v, rule).None?
    ensures r.Some? ==> r.value != ""
    ensures r.Some? && FailedCheck(v, rule).value.Custom? ==> r.value == FailedCheck(v, rule).value.report
    ensures r.Some? && !FailedCheck(v, rule).value.Custom? ==>
      r.value == MessageOr(rule.message, DefaultMessage(field, FailedCheck(v, rule).value))
  {
    match FailedCheck(v, rule)
    case None => None
    case Some(Custom(report)) => Some(report)
    case Some(c) => Some(MessageOr(rule.message, DefaultMessage(field, c)))
  }

  /** An empty value fails a rule exactly when the rule is a `required` one, and then with
      the rule's message or "<Field Name> is required". */
  lemma EmptyValueFailsOnlyRequired(field: string, v: Value, rule: Rule)
    requires IsEmpty(v)
    ensures ValidateField(field, v, rule).Some? <==> rule.required
    ensures rule.required ==>
      ValidateField(field, v, rule) == Some(MessageOr(rule.message, FormatFieldName(field) + " is required"))
  {
  }

  /** Length limits and patterns apply to strings only: any other non-empty value fails a
      rule only through its custom check, and with exactly the custom check's report. */
  lemma NonStringOnlyCustom(field: string, v: Value, rule: Rule)
    requires !v.Str? && !IsEmpty(v)
    ensures ValidateField(field, v, rule) ==
      if rule.custom.Some? && Truthy(rule.custom.value(v)) then rule.custom.value(v) else None
  {
  }

  /** A non-empty string within the rule's limits that matches its pattern fails only
      through the custom check; one outside them fails with the rule's own message when it
      has one. */
  lemma StringChecks(field: string, s: string, rule: Rule)
    requires s != ""
    ensures var r := ValidateField(field, Str(s), rule);
      && ((!LimitSet(rule.minLength) || |s| >= rule.minLength.value)
          && (!LimitSet(rule.maxLength) || |s| <= rule.maxLength.value)
          && (rule.pattern.None? || rule.pattern.value(s))
          ==> r == if rule.custom.Some? && Truthy(rule.custom.value(Str(s))) then rule.custom.value(Str(s)) else None)
      && ((LimitSet(rule.minLength) && |s| < rule.minLength.value)
          || (LimitSet(rule.maxLength) && |s| > rule.maxLength.value)
          || (rule.pattern.Some? && !rule.pattern.value(s))
          ==> r.Some? && (Truthy(rule.message) ==> r == rule.message))
  {
  }

  /** The error of one field under a list of rules: the first rule's error that there is. */
  function FirstError(field: string, v: Value, rules: seq<Rule>): Option<string>
  {
    if rules == [] then None
    else if ValidateField(field, v, rules[0]).Some? then ValidateField(field, v, rules[0])
    else FirstError(field, v, rules[1..])
  }

  /** The first rule decides when it fails; otherwise the rest of the list does. */
  lemma FirstErrorCons(field: string, v: Value, rule: Rule, rest: seq<Rule>)
    ensures FirstError(field, v, [rule] + rest) ==
      if ValidateField(field, v, rule).Some? then ValidateField(field, v, rule) else FirstError(field, v, rest)
  {
    assert ([rule] + rest)[0] == rule && ([rule] + rest)[1..] == rest;
  }

  /** A field has an error exactly when one of its rules fails; the error reported is that
      of the first failing rule, and no earlier rule fails. */
  lemma {:induction false} FirstErrorIsFirstFailure(field: string, v: Value, rules: seq<Rule>)
    ensures FirstError(field, v, rules).None? <==>
      forall i :: 0 <= i < |rules| ==> ValidateField(field, v, rules[i]).None?
    ensures FirstError(field, v, rules).Some? ==>
      exists i :: 0 <= i < |rules| && FirstError(field, v, rules) == ValidateField(field, v, rules[i])
        && forall j :: 0 <= j < i ==> ValidateField(field, v, rules[j]).None?
  {
    if rules != [] {
      FirstErrorIsFirstFailure(field, v, rules[1..]);
      if ValidateField(field, v, rules[0]).None? {
        assert forall i :: 1 <= i < |rules| ==> rules[i] == rules[1..][i - 1];
        if FirstError(field, v, rules).Some? {
          var k :| 0 <= k < |rules[1..]| && FirstError(field, v, rules[1..]) == ValidateField(field, v, rules[1..][k])
            && forall j :: 0 <= j < k ==> ValidateField(field, v, rules[1..][j]).None?;
          assert FirstError(field, v, rules) == ValidateField(field, v, rules[k + 1]);
          forall j | 0 <= j < k + 1
            ensures ValidateField(field, v, rules[j]).None?
          {
            if j > 0 {
              assert rules[j] == rules[1..][j - 1];
            }
          }
        }
      }
    }
  }

  /** The inner loop of `validate` and the loop of `useFormValidation`'s `validateField`:
      the rules are tried in order and the first error stops the search. */
  method FieldError(field: string, v: Value, rules: seq<Rule>) returns (error: Option<string>)
    ensures error == FirstError(field, v, rules)
  {
    var i := 0;
    while i < |rules|
      invariant 0 <= i <= |rules|
      invariant FirstError(field, v, rules) == FirstError(field, v, rules[i..])
    {
      error := ValidateField(field, v, rules[i]);
      if error.Some? {
        return;
      }
      assert rules[i..][1..] == rules[i + 1..];
      i := i + 1;
    }
    assert rules[i..] == [];
    error := None;
  }

  /** `data[field]`: a missing field reads as `undefined`. */
  function ValueAt(data: map<string, Value>, field: string): Value
  {
    if field in data then data[field] else Undefined
  }

  datatype ValidationResult = ValidationResult(isValid: bool, errors: map<string, string>)

  /** `FormValidator.validate`: one error per schema field that fails, the first its rules
      report, and valid exactly when no field failed. */
  method Validate(schema: map<string, RuleSet>, data: map<string, Value>) returns (result: ValidationResult)
    ensures forall f :: f in result.errors <==> f in schema && FirstError(f, ValueAt(data, f), RulesOf(schema[f])).Some?
    ensures forall f :: f in result.errors ==> Some(result.errors[f]) == FirstError(f, ValueAt(data, f), RulesOf(schema[f]))
    ensures result.isValid <==> forall f :: f in schema ==> FirstError(f, ValueAt(data, f), RulesOf(schema[f])).None?
  {
    var errors: map<string, string> := map[];
    var fields := schema.Keys;
    while fields != {}
      invariant fields <= schema.Keys
      invariant forall f :: f in errors ==> f in schema && f !in fields
      invariant forall f :: f in schema && f !in fields ==>
        (f in errors <==> FirstError(f, ValueAt(data, f), RulesOf(schema[f])).Some?)
      invariant forall f :: f in errors ==> Some(errors[f]) == FirstError(f, ValueAt(data, f), RulesOf(schema[f]))
      decreases |fields|
    {
      var field :| field in fields;
      var error := FieldError(field, ValueAt(data, field), RulesOf(schema[field]));
      if error.Some? {
        errors := errors[field := error.value];
      }
      fields := fields - {field};
    }
    result := ValidationResult(|errors| == 0, errors);
    if !result.isValid {
      var f :| f in errors;
      assert f in schema && FirstError(f, ValueAt(data, f), RulesOf(schema[f])).Some?;
    }
  }

  /** `useFormValidation`'s `validateField`: a field outside the schema has no error;
      one inside it gets the same error `Validate` would report for it. */
  method CheckField(schema: map<string, RuleSet>, field: string, v: Value) returns (error: Option<string>)
    ensures field !in schema ==> error.None?
    ensures field in schema ==> error == FirstError(field, v, RulesOf(schema[field]))
  {
    if field !in schema {
      return None;
    }
    error := FieldError(field, v, RulesOf(schema[field]));
  }

  /** `^[^\s@]+@[^\s@]+\.[^\s@]+$`: one `@` with text before it and, after it, text with
      a dot that is neither its first nor its last character; no whitespace anywhere. */
  predicate EmailPattern(s: string)
  {
    exists at :: 0 < at < |s| && s[at] == '@'
      && (forall i :: 0 <= i < |s| && i != at ==> !IsWhitespace(s[i]) && s[i] != '@')
      && exists dot :: at + 1 < dot < |s| - 1 && s[dot] == '.'
  }

  predicate IsPhoneChar(c: char)
  {
    IsDigit(c) || IsWhitespace(c) || c == '-' || c == '+' || c == '(' || c == ')'
  }

  /** `^[\d\s\-\+\(\)]+$`. */
  predicate PhonePattern(s: string)
  {
    |s| > 0 && forall i :: 0 <= i < |s| ==> IsPhoneChar(s[i])
  }

  predicate IsNameChar(c: char)
  {
    IsAsciiLetter(c) || IsDigit(c) || IsWhitespace(c) || c == '-' || c == '\'' || c == '.'
  }

  /** `^[a-zA-Z0-9\s\-'\.]+$`. */
  predicate NoSpecialCharsPattern(s: string)
  {
    |s| > 0 && forall i :: 0 <= i < |s| ==> IsNameChar(s[i])
  }

  /** The default messages of the predefined rules. */
  const EmailMessage := "Please enter a valid email address"
  const PhoneMessage := "Please enter a valid phone number"
  const NoSpecialCharsMessage := "Only letters, numbers, spaces, hyphens, apostrophes, and periods are allowed"
  const FutureDateMessage := "Date cannot be in the future"
  const InvalidDateMessage := "Please enter a valid date"

  /** `ValidationRules.required`. */
  function RequiredRule(message: Option<string>): (r: Rule)
    ensures r.required && r.message == message
  {
    Rule(true, None, None, None, None, message)
  }

  function PatternRule(pattern: string -> bool, message: string): Rule
  {
    Rule(false, None, None, Some(pattern), None, Some(message))
  }

  /** `ValidationRules.email`. */
  function EmailRule(message: Option<string>): Rule
  {
    PatternRule(EmailPattern, MessageOr(message, EmailMessage))
  }

  /** `ValidationRules.phone`. */
  function PhoneRule(message: Option<string>): Rule
  {
    PatternRule(PhonePattern, MessageOr(message, PhoneMessage))
  }

  /** `ValidationRules.minLength`. */
  function MinLengthRule(length: int, message: Option<string>): Rule
  {
    Rule(false, Some(length), None, None, None, message)
  }

  /** `ValidationRules.maxLength`. */
  function MaxLengthRule(length: int, message: Option<string>): Rule
  {
    Rule(false, None, Some(length), None, None, message)
  }

  /** `ValidationRules.noSpecialChars`. */
  function NoSpecialCharsRule(message: Option<string>): Rule
  {
    PatternRule(NoSpecialCharsPattern,
      MessageOr(message, NoSpecialCharsMessage))
  }

  /** `ValidationRules.dateNotFuture`; `isFuture` says whether the date a value denotes lies
      after the current time. */
  function DateNotFutureRule(message: Option<string>, isFuture: Value -> bool): Rule
  {
    Rule(false, None, None, None,
      Some((v: Value) => if Falsy(v) then None
                         else if isFuture(v) then Some(MessageOr(message, FutureDateMessage))
                         else None),
      None)
  }

  /** `ValidationRules.validDate`; `isValidDate` says whether `new Date(value)` is a valid
      date. */
  function ValidDateRule(message: Option<string>, isValidDate: Value -> bool): Rule
  {
    Rule(false, None, None, None,
      Some((v: Value) => if Falsy(v) then None
                         else if !isValidDate(v) then Some(MessageOr(message, InvalidDateMessage))
                         else None),
      None)
  }

  /** A non-empty string fails `required` never, a length rule exactly when it is outside
      the limit, and a pattern rule exactly when the pattern does not match it, with the
      pattern rule's message. */
  lemma {:induction false} StringRuleChecks(field: string, s: string, n: int, p: string -> bool, m: string)
    requires s != "" && n != 0 && m != ""
    ensures ValidateField(field, Str(s), RequiredRule(None)).None?
    ensures ValidateField(field, Str(s), MinLengthRule(n, None)).None? <==> |s| >= n
    ensures ValidateField(field, Str(s), MaxLengthRule(n, None)).None? <==> |s| <= n
    ensures ValidateField(field, Str(s), PatternRule(p, m)) == if p(s) then None else Some(m)
  {
    StringChecks(field, s, RequiredRule(None));
    StringChecks(field, s, MinLengthRule(n, None));
    StringChecks(field, s, MaxLengthRule(n, None));
    StringChecks(field, s, PatternRule(p, m));
  }

  /** The date rules let a falsy value through and otherwise report an invalid date, or a
      date in the future, with their default messages. */
  lemma DateRuleChecks(field: string, v: Value, isValidDate: Value -> bool, isFuture: Value -> bool)
    requires !IsEmpty(v)
    ensures ValidateField(field, v, ValidDateRule(None, isValidDate)) ==
      if Falsy(v) || isValidDate(v) then None else Some(InvalidDateMessage)
    ensures ValidateField(field, v, DateNotFutureRule(None, isFuture)) ==
      if Falsy(v) || !isFuture(v) then None else Some(FutureDateMessage)
  {
  }

  /** The rules of both name fields. */
  function NameRules(): seq<Rule>
  {
    [RequiredRule(None), MinLengthRule(1, None), MaxLengthRule(50, None), NoSpecialCharsRule(None)]
  }

  function EmailRules(): seq<Rule>
  {
    [EmailRule(None), MaxLengthRule(100, None)]
  }

  function PhoneRules(): seq<Rule>
  {
    [PhoneRule(None), MaxLengthRule(20, None)]
  }

  function DateRules(isValidDate: Value -> bool, isFuture: Value -> bool): seq<Rule>
  {
    [ValidDateRule(None, isValidDate), DateNotFutureRule(None, isFuture)]
  }

  /** `PersonValidationSchema`. */
  function PersonSchema(isValidDate: Value -> bool, isFuture: Value -> bool): map<string, RuleSet>
  {
    map[
      "firstName" := Many(NameRules()),
      "lastName" := Many(NameRules()),
      "email" := Many(EmailRules()),
      "phoneNumber" := Many(PhoneRules()),
      "dateOfBirth" := Many(DateRules(isValidDate, isFuture)),
      "placeOfBirth" := Many([MaxLengthRule(100, None)]),
      "notes" := Many([MaxLengthRule(500, None)])
    ]
  }

  /** Rules none of which is `required` let an empty value through. */
  lemma {:induction false} OptionalRulesAcceptEmpty(field: string, v: Value, rules: seq<Rule>)
    requires IsEmpty(v)
    requires forall i :: 0 <= i < |rules| ==> !rules[i].required
    ensures FirstError(field, v, rules).None?
  {
    if rules != [] {
      EmptyValueFailsOnlyRequired(field, v, rules[0]);
      assert forall i :: 0 <= i < |rules[1..]| ==> rules[1..][i] == rules[i + 1];
      OptionalRulesAcceptEmpty(field, v, rules[1..]);
    }
  }

  /** On the person form, both names are required and every other field may be left
      empty. */
  lemma PersonSchemaEmptyFields(isValidDate: Value -> bool, isFuture: Value -> bool, field: string, v: Value)
    requires field in PersonSchema(isValidDate, isFuture) && IsEmpty(v)
    ensures FirstError(field, v, RulesOf(PersonSchema(isValidDate, isFuture)[field])) ==
      if field == "firstName" || field == "lastName" then Some(FormatFieldName(field) + " is required") else None
  {
    var rules := RulesOf(PersonSchema(isValidDate, isFuture)[field]);
    if field == "firstName" || field == "lastName" {
      assert rules == [RequiredRule(None)] + NameRules()[1..];
      FirstErrorCons(field, v, RequiredRule(None), NameRules()[1..]);
      EmptyValueFailsOnlyRequired(field, v, RequiredRule(None));
    } else {
      OptionalRulesAcceptEmpty(field, v, rules);
    }
  }

  /** A name the person form accepts has 1 to 50 characters, all letters, digits,
      whitespace, hyphens, apostrophes or periods. */
  lemma NameRulesAccept(field: string, s: string)
    ensures FirstError(field, Str(s), NameRules()).None? <==> 1 <= |s| <= 50 && NoSpecialCharsPattern(s)
  {
    if s == "" {
      NameRulesRejectEmpty(field);
    } else {
      var v := Str(s);
      var special := NoSpecialCharsRule(None);
      assert special == PatternRule(NoSpecialCharsPattern, NoSpecialCharsMessage);
      FirstErrorCons(field, v, special, []);
      FirstErrorCons(field, v, MaxLengthRule(50, None), [special]);
      FirstErrorCons(field, v, MinLengthRule(1, None), [MaxLengthRule(50, None), special]);
      FirstErrorCons(field, v, RequiredRule(None), [MinLengthRule(1, None), MaxLengthRule(50, None), special]);
      assert NameRules() == [RequiredRule(None)] + [MinLengthRule(1, None), MaxLengthRule(50, None), special];
      StringRuleChecks(field, s, 1, NoSpecialCharsPattern, NoSpecialCharsMessage);
      StringRuleChecks(field, s, 50, NoSpecialCharsPattern, NoSpecialCharsMessage);
    }
  }

  /** An empty name fails the first rule of the list, the required check. */
  lemma NameRulesRejectEmpty(field: string)
    ensures FirstError(field, Str(""), NameRules()) == Some(FormatFieldName(field) + " is required")
  {
    var rest := NameRules()[1..];
    FirstErrorCons(field, Str(""), RequiredRule(None), rest);
    assert NameRules() == [RequiredRule(None)] + rest;
    EmptyValueFailsOnlyRequired(field, Str(""), RequiredRule(None));
  }

  /** A non-empty email is accepted exactly when it has the shape the pattern describes and
      at most 100 characters; one without that shape gets the email rule's message. */
  lemma EmailRulesAccept(field: string, s: string)
    requires s != ""
    ensures FirstError(field, Str(s), EmailRules()).None? <==> EmailPattern(s) && |s| <= 100
    ensures !EmailPattern(s) ==> FirstError(field, Str(s), EmailRules()) == Some(EmailMessage)
  {
    var email := EmailRule(None);
    assert email == PatternRule(EmailPattern, EmailMessage);
    FirstErrorCons(field, Str(s), MaxLengthRule(100, None), []);
    FirstErrorCons(field, Str(s), email, [MaxLengthRule(100, None)]);
    assert EmailRules() == [email] + [MaxLengthRule(100, None)];
    StringRuleChecks(field, s, 100, EmailPattern, EmailMessage);
  }

  /** A non-empty phone number is accepted exactly when it is made of digits, whitespace,
      `-`, `+` and parentheses and has at most 20 characters. */
  lemma PhoneRulesAccept(field: string, s: string)
    requires s != ""
    ensures FirstError(field, Str(s), PhoneRules()).None? <==> PhonePattern(s) && |s| <= 20
    ensures !PhonePattern(s) ==> FirstError(field, Str(s), PhoneRules()) == Some(PhoneMessage)
  {
    var phone := PhoneRule(None);
    assert phone == PatternRule(PhonePattern, PhoneMessage);
    FirstErrorCons(field, Str(s), MaxLengthRule(20, None), []);
    FirstErrorCons(field, Str(s), phone, [MaxLengthRule(20, None)]);
    assert PhoneRules() == [phone] + [MaxLengthRule(20, None)];
    StringRuleChecks(field, s, 20, PhonePattern, PhoneMessage);
  }

  /** A date of birth is checked for validity first and for lying in the future second; a
      falsy value passes both. */
  lemma DateRulesAccept(field: string, v: Value, isValidDate: Value -> bool, isFuture: Value -> bool)
    requires !IsEmpty(v)
    ensures FirstError(field, v, DateRules(isValidDate, isFuture)) ==
      if Falsy(v) then None
      else if !isValidDate(v) then Some(InvalidDateMessage)
      else if isFuture(v) then Some(FutureDateMessage)
      else None
  {
    var valid := ValidDateRule(None, isValidDate);
    var notFuture := DateNotFutureRule(None, isFuture);
    FirstErrorCons(field, v, notFuture, []);
    FirstErrorCons(field, v, valid, [notFuture]);
    assert DateRules(isValidDate, isFuture) == [valid] + [notFuture];
    DateRuleChecks(field, v, isValidDate, isFuture);
  }
}
