/** The admin client's category form: its three validated fields, the error
    message `getFieldError` shows for a field, and the slug it fills in
    while a new category's name is typed. */
module CategoryForm {
  import opened Wrappers
  import Slugs

  datatype Field = Name | Description | Slug

  /** The control name, which is also the start of each message. */
  function FieldName(f: Field): string {
    match f
    case Name => "name"
    case Description => "description"
    case Slug => "slug"
  }

  /** The validator errors Angular attaches to a control: `required`,
      `minlength` and `maxlength` with their required length, and `pattern`. */
  datatype Errors = Errors(
    required: bool,
    minLength: Option<nat>,
    maxLength: Option<nat>,
    pattern: bool)

  predicate HasErrors(e: Errors) {
    e.required || e.minLength.Some? || e.maxLength.Some? || e.pattern
  }

  const NameMinLength: nat := 2
  const NameMaxLength: nat := 100
  const DescriptionMaxLength: nat := 500

  /** The validators of each field. `minlength` and `pattern` do not judge
      an empty value; `required` does. */
  function Validate(f: Field, value: string): (e: Errors)
    ensures e.required <==> f != Description && value == []
    ensures e.minLength.Some? <==> f == Name && 0 < |value| < NameMinLength
    ensures e.maxLength.Some? <==> (f == Name && |value| > NameMaxLength) || (f == Description && |value| > DescriptionMaxLength)
    ensures e.pattern <==> f == Slug && value != [] && !Slugs.MatchesCategoryFormPattern(value)
    ensures e.minLength.Some? ==> e.minLength.value == NameMinLength
    ensures f == Name && e.maxLength.Some? ==> e.maxLength.value == NameMaxLength
    ensures f == Description && e.maxLength.Some? ==> e.maxLength.value == DescriptionMaxLength
  {
    match f
    case Name =>
      Errors(value == [],
             if 0 < |value| < NameMinLength then Some(NameMinLength) else None,
             if |value| > NameMaxLength then Some(NameMaxLength) else None,
             false)
    case Description =>
      Errors(false, None, if |value| > DescriptionMaxLength then Some(DescriptionMaxLength) else None, false)
    case Slug =>
      Errors(value == [], None, None, value != [] && !Slugs.MatchesCategoryFormPattern(value))
  }

  /** The value of a decimal digit. */
  function DigitValue(c: char): nat {
    if '0' <= c <= '9' then (c - '0') as nat else 0
  }

  /** The number a string of decimal digits denotes, most significant
      digit first. */
  function DigitsValue(s: string): nat {
    if s == [] then 0 else DigitsValue(s[..|s| - 1]) * 10 + DigitValue(s[|s| - 1])
  }

  /** The decimal digits of `n`, as `String(n)` writes them: digits only,
      without a leading zero, and reading them back gives `n`. */
  function Decimal(n: nat): (r: string)
    ensures |r| > 0
    ensures forall i :: 0 <= i < |r| ==> '0' <= r[i] <= '9'
    ensures DigitsValue(r) == n
    ensures n == 0 ==> r == "0"
    ensures n > 0 ==> r[0] != '0'
  {
    var d := ['0' + (n % 10) as char];
    if n < 10 then d
    else
      var r := Decimal(n / 10) + d;
      assert r[..|r| - 1] == Decimal(n / 10);
      r
  }

  /** The bounds the messages quote, written out. */
  lemma BoundsInWords()
    ensures Decimal(NameMinLength) == "2"
    ensures Decimal(NameMaxLength) == "100"
    ensures Decimal(DescriptionMaxLength) == "500"
  {
  }

  const PatternMessage: string := "Slug must contain only lowercase letters, numbers, and hyphens"

  /** `getFieldError`: nothing unless the field is touched and has an error;
      then the first of required, minlength, maxlength and pattern. */
  function FieldError(f: Field, value: string, touched: bool): (r: Option<string>)
    ensures r.Some? <==> touched && HasErrors(Validate(f, value))
    ensures r.Some? && Validate(f, value).required ==> r.value == FieldName(f) + " is required"
    ensures r.Some? && !Validate(f, value).required && Validate(f, value).minLength.Some? ==>
              r.value == FieldName(f) + " must be at least " + Decimal(NameMinLength) + " characters"
    ensures r.Some? && !Validate(f, value).required && Validate(f, value).minLength.None? && Validate(f, value).maxLength.Some? ==>
              r.value == FieldName(f) + " must be no more than " + Decimal(if f == Name then NameMaxLength else DescriptionMaxLength) + " characters"
    ensures r.Some? && Validate(f, value).pattern ==> r.value == PatternMessage
  {
    var e := Validate(f, value);
    if !(HasErrors(e) && touched) then None
    else if e.required then Some(FieldName(f) + " is required")
    else if e.minLength.Some? then Some(FieldName(f) + " must be at least " + Decimal(e.minLength.value) + " characters")
    else if e.maxLength.Some? then Some(FieldName(f) + " must be no more than " + Decimal(e.maxLength.value) + " characters")
    else Some(PatternMessage)
  }

  /** An untouched field never shows a message, and a touched empty name or
      slug always says it is required. */
  lemma FieldErrorPriority(f: Field, value: string)
    ensures FieldError(f, value, false) == None
    ensures f != Description && value == [] ==> FieldError(f, value, true) == Some(FieldName(f) + " is required")
  {
  }

  /** The slug field's value after the name changes: while creating, a
      non-empty name replaces it with the name's slug; while editing, or
      for an empty name, it is kept. */
  function OnNameChange(name: string, editing: bool, slug: string): (r: string)
    ensures editing || name == [] ==> r == slug
    ensures !editing && name != [] ==> r == Slugs.FormSlug(name)
  {
    if name != [] && !editing then Slugs.FormSlug(name) else slug
  }

  /** The slug filled in from a name is never flagged by the slug's pattern:
      it either passes or is empty and reported as required. */
  lemma {:induction false} GeneratedSlugPasses(name: string, slug: string)
    requires name != []
    ensures !Validate(Slug, OnNameChange(name, false, slug)).pattern
  {
    var s := Slugs.FormSlug(name);
    if s != [] {
      Slugs.FormSlugMatchesCategoryFormPattern(name);
    }
  }
}
