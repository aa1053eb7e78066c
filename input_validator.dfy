/** `InputValidator` (src/input_validator.py): the two checks applied to what a user types. An
    error is the `ValueError` the source raises, carrying its message. */
module InputValidator {
  import opened Wrappers
  import opened Text

  const EmptyName := "Il nome della citt\U{E0} non pu\U{F2} essere vuoto"
  const NameTooShort := "Il nome della citt\U{E0} deve avere almeno 2 caratteri"
  const NameTooLong := "Il nome della citt\U{E0} \U{E8} troppo lungo (max 50 caratteri)"
  const NameInvalidChars := "Il nome della citt\U{E0} contiene caratteri non validi"
  const CategoryOutOfRange := "Categoria non valida"
  const CategoryInvalid := "ID categoria non valido"

  const MinNameLength := 2
  const MaxNameLength := 20

  /** One character of the class `[a-zA-ZÀ-ÿ\s\-'.]`. */
  predicate NameChar(c: char) {
    || 'a' <= c <= 'z'
    || 'A' <= c <= 'Z'
    || '\U{C0}' <= c <= '\U{FF}'
    || IsSpace(c)
    || c == '-' || c == '\'' || c == '.'
  }

  /** `re.match` of `^[...]+$` with that class: one or more characters, all in the class (the
      class holds `\n`, so `$` matching before a final newline adds nothing). */
  predicate MatchesNamePattern(s: string) {
    s != [] && forall i :: 0 <= i < |s| ==> NameChar(s[i])
  }

  /** `validate_name`; `None` stands for Python's `None`. */
  function ValidateName(name: Option<string>): (r: Result<string>)
    ensures r.Ok? <==>
      && name.Some?
      && MinNameLength <= |Strip(name.value)| <= MaxNameLength
      && MatchesNamePattern(Strip(name.value))
    ensures r.Ok? ==> r.value == Strip(name.value)
    ensures r.Ok? ==> !IsSpace(r.value[0]) && !IsSpace(r.value[|r.value| - 1])
    ensures name.None? || name == Some("") ==> r == Err(EmptyName)
  {
    if name.None? || name.value == "" then Err(EmptyName)
    else
      var trimmed := Strip(name.value);
      if |trimmed| < MinNameLength then Err(NameTooShort)
      else if |trimmed| > MaxNameLength then Err(NameTooLong)
      else if !MatchesNamePattern(trimmed) then Err(NameInvalidChars)
      else Ok(trimmed)
  }

  /** A name of whitespace only is not empty, so it fails on length, not on emptiness. */
  lemma BlankNameRejected(s: string)
    requires s != []
    requires forall i :: 0 <= i < |s| ==> IsSpace(s[i])
    ensures ValidateName(Some(s)) == Err(NameTooShort)
  {
    StripBlank(s);
  }

  /** The length limit is 20, whatever the message says. */
  lemma LongNameRejected(s: string)
    requires |Strip(s)| > MaxNameLength
    ensures ValidateName(Some(s)) == Err(NameTooLong)
  {
  }

  /** Every character of an accepted name is in the allowed class, and an accepted name is
      between 2 and 20 characters long. */
  lemma AcceptedNameShape(name: Option<string>)
    requires ValidateName(name).Ok?
    ensures var v := ValidateName(name).value;
      && 2 <= |v| <= 20
      && forall i :: 0 <= i < |v| ==> NameChar(v[i])
  {
  }

  /** Validating an accepted name again gives the same name. */
  lemma NameIdempotent(name: Option<string>)
    requires ValidateName(name).Ok?
    ensures ValidateName(Some(ValidateName(name).value)) == ValidateName(name)
  {
    StripIdempotent(name.value);
  }

  /** The range check inside the `try` of `validate_category_id`. */
  function CheckCategoryRange(n: int): (r: Result<int>)
    ensures r.Ok? <==> 1 <= n <= 10
    ensures r.Ok? ==> r.value == n
  {
    if n < 1 || n > 10 then Err(CategoryOutOfRange) else Ok(n)
  }

  /** `validate_category_id`, with `int()` as the given partial parser. The `ValueError` of the
      range check is caught by the same `except` and replaced, so every failure carries
      `CategoryInvalid`. */
  function ValidateCategoryId(s: string, parseInt: string -> Option<int>): (r: Result<int>)
    ensures r.Ok? <==> parseInt(s).Some? && 1 <= parseInt(s).value <= 10
    ensures r.Ok? ==> r.value == parseInt(s).value
    ensures r.Err? ==> r.message == CategoryInvalid
  {
    match parseInt(s)
    case None => Err(CategoryInvalid)
    case Some(n) =>
      match CheckCategoryRange(n)
      case Ok(v) => Ok(v)
      case Err(_) => Err(CategoryInvalid)
  }
}
