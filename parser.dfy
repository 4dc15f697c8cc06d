/**
 * The field checks of `cron/src/schedule/parser.rs`: the characters a cron
 * field may hold, the bounds and keywords of each of the six fields, the
 * per-field validation with its shared duplicate set, and the assembly of
 * the six validated rings into a field table.
 */
module Parser {
  import opened Wrappers
  import opened Ring
  import opened TableFields
  import opened Table

  /**
   * The parse errors the parser and the tokenizer raise.  The enum itself
   * is not part of this model; its variants are the ones these files use.
   */
  datatype ParseError =
    | Empty
    | BelowRange
    | AboveRange
    | DuplicateValue
    | InvalidToken
    | BadEnd
    | Build(error: BuildError)

  /** `ast::Token`: a digit, a letter, or one of the four punctuation marks. */
  datatype AstToken = Number(digit: char) | Letter(letter: char) | Comma | Slash | Asterisk | Hyphen

  predicate IsDigit(c: char)
  {
    '0' <= c <= '9'
  }

  predicate IsAsciiLetter(c: char)
  {
    ('a' <= c <= 'z') || ('A' <= c <= 'Z')
  }

  /** The characters a cron field may contain. */
  predicate IsTokenChar(c: char)
  {
    IsDigit(c) || IsAsciiLetter(c) || c == ',' || c == '/' || c == '*' || c == '-'
  }

  /** `Token::try_from`: classifies a character, or fails with a message for any other. */
  function AstTokenOf(c: char): (r: Result<AstToken, string>)
    ensures r.Ok? <==> IsTokenChar(c)
    ensures r.Ok? && r.value.Number? ==> IsDigit(c) && r.value.digit == c
    ensures r.Ok? && r.value.Letter? ==> IsAsciiLetter(c) && r.value.letter == c
  {
    if IsDigit(c) then Ok(Number(c))
    else if IsAsciiLetter(c) then Ok(Letter(c))
    else if c == ',' then Ok(Comma)
    else if c == '/' then Ok(Slash)
    else if c == '*' then Ok(Asterisk)
    else if c == '-' then Ok(Hyphen)
    else Err("Invalid char, must be a number, letter, comma, slash, asterisk, or hyphen.")
  }

  /** Each punctuation mark has its own token, and digits are never letters. */
  lemma AstTokenKinds(c: char)
    ensures AstTokenOf(c) == Ok(Comma) <==> c == ','
    ensures AstTokenOf(c) == Ok(Slash) <==> c == '/'
    ensures AstTokenOf(c) == Ok(Asterisk) <==> c == '*'
    ensures AstTokenOf(c) == Ok(Hyphen) <==> c == '-'
    ensures AstTokenOf(c).Ok? && AstTokenOf(c).value.Number? <==> IsDigit(c)
    ensures AstTokenOf(c).Ok? && AstTokenOf(c).value.Letter? <==> IsAsciiLetter(c)
  {
  }

  /** The six fields of a cron expression, in their order. */
  datatype Field = Seconds | Minutes | Hours | DaysOfTheMonth | Months | DaysOfTheWeek
  {
    /** The least value the field allows. */
    function Min(): nat
    {
      match this
      case Seconds | Minutes | Hours | DaysOfTheWeek => 0
      case DaysOfTheMonth | Months => 1
    }

    /** The greatest value the field allows. */
    function Max(): nat
    {
      match this
      case Seconds | Minutes => 59
      case Hours => 23
      case DaysOfTheMonth => 31
      case Months => 12
      case DaysOfTheWeek => 6
    }

    /** The keywords that may stand for the field's values, for the fields that have them. */
    function Keywords(): Option<seq<string>>
    {
      match this
      case Months => Some(["JAN", "FEB", "MAR", "APR", "MAY", "JUN", "JUL", "AUG", "SEP", "OCT", "NOV", "DEC"])
      case DaysOfTheWeek => Some(["SUN", "MON", "TUES", "WED", "THURS", "FRI", "SAT"])
      case _ => None
    }
  }

  /**
   * The bounds of every field, and one keyword per allowed value for the
   * months and the weekdays (the first keyword naming the least value).
   */
  lemma FieldBounds(f: Field)
    ensures f in {Seconds, Minutes} ==> f.Min() == 0 && f.Max() == 59
    ensures f == Hours ==> f.Min() == 0 && f.Max() == 23
    ensures f == DaysOfTheMonth ==> f.Min() == 1 && f.Max() == 31
    ensures f == Months ==> f.Min() == 1 && f.Max() == 12
    ensures f == DaysOfTheWeek ==> f.Min() == 0 && f.Max() == 6
    ensures f.Keywords().Some? <==> f in {Months, DaysOfTheWeek}
    ensures f.Keywords().Some? ==> |f.Keywords().value| == f.Max() - f.Min() + 1
    ensures f.Min() <= f.Max()
  {
  }

  /** The index of the first value that repeats an earlier one, or the length when none does. */
  function FirstRepeatFrom(values: seq<nat>, i: nat): (k: nat)
    requires i <= |values|
    ensures i <= k <= |values|
    decreases |values| - i
  {
    if i == |values| then i
    else if values[i] in values[..i] then i
    else FirstRepeatFrom(values, i + 1)
  }

  function FirstRepeat(values: seq<nat>): (k: nat)
    ensures k <= |values|
  {
    FirstRepeatFrom(values, 0)
  }

  predicate Distinct(values: seq<nat>)
  {
    forall i, j :: 0 <= i < j < |values| ==> values[i] != values[j]
  }

  /** Past the first repeat the values before it are distinct; no repeat means all are. */
  lemma {:induction false} FirstRepeatFromMeaning(values: seq<nat>, i: nat)
    requires i <= |values| && Distinct(values[..i])
    ensures var k := FirstRepeatFrom(values, i);
            Distinct(values[..k]) && (k < |values| ==> values[k] in values[..k])
    decreases |values| - i
  {
    if i < |values| && values[i] !in values[..i] {
      assert values[..i + 1] == values[..i] + [values[i]];
      FirstRepeatFromMeaning(values, i + 1);
    }
  }

  /** A repeat is found exactly when the values are not distinct. */
  lemma FirstRepeatIffNotDistinct(values: seq<nat>)
    ensures FirstRepeat(values) < |values| <==> !Distinct(values)
    ensures FirstRepeat(values) < |values| ==> values[FirstRepeat(values)] in values[..FirstRepeat(values)]
  {
    assert values[..0] == [];
    FirstRepeatFromMeaning(values, 0);
    var k := FirstRepeat(values);
    if k == |values| {
      assert values[..k] == values;
    } else {
      var j :| 0 <= j < k && values[..k][j] == values[k];
    }
  }

  /**
   * The outcome of `validate`: no values is Empty, a value below the
   * field's least is BelowRange, one above its greatest is AboveRange, and
   * a repeated value is DuplicateValue, checked in that order.
   */
  function ValidateError(field: Field, values: seq<nat>): (e: Option<ParseError>)
  {
    if |values| == 0 then Some(Empty)
    else if exists v :: v in values && v < field.Min() then Some(BelowRange)
    else if exists v :: v in values && v > field.Max() then Some(AboveRange)
    else if FirstRepeat(values) < |values| then Some(DuplicateValue)
    else None
  }

  /** Validation passes exactly for a non-empty list of distinct values within the field's bounds. */
  lemma ValidateAccepts(field: Field, values: seq<nat>)
    ensures ValidateError(field, values).None? <==>
      |values| > 0 && Distinct(values) && forall v :: v in values ==> field.Min() <= v <= field.Max()
  {
    FirstRepeatIffNotDistinct(values);
  }

  /** The set `validate` checks for duplicates with, shared by the caller across fields. */
  class DupCheck {
    var seen: set<nat>

    constructor ()
      ensures seen == {}
    {
      seen := {};
    }
  }

  /**
   * `SubExpr::validate`: clears the shared set, then fails as
   * `ValidateError` says, or yields a fresh ring of the values in the order
   * given.  The duplicate scan leaves in the set every value before the
   * first repeat.
   */
  method Validate(field: Field, values: seq<nat>, dupck: DupCheck) returns (r: Result<CopyRing<nat>, ParseError>)
    modifies dupck
    ensures r.Err? <==> ValidateError(field, values).Some?
    ensures r.Err? ==> r.error == ValidateError(field, values).value
    ensures r.Ok? ==>
      fresh(r.value) && r.value.Valid() && r.value.items == values &&
      r.value.index == 0 && !r.value.init && r.value.stride == 1
    ensures var early := |values| == 0 || (exists v :: v in values && v < field.Min()) ||
                         (exists v :: v in values && v > field.Max());
            dupck.seen == if early then {} else set v | v in values[..FirstRepeat(values)]
  {
    dupck.seen := {};
    if |values| == 0 {
      return Err(Empty);
    }
    if exists v :: v in values && v < field.Min() {
      return Err(BelowRange);
    }
    if exists v :: v in values && v > field.Max() {
      return Err(AboveRange);
    }
    var i := 0;
    while i < |values|
      invariant 0 <= i <= |values|
      invariant FirstRepeatFrom(values, i) == FirstRepeat(values)
      invariant dupck.seen == set v | v in values[..i]
    {
      if values[i] in dupck.seen {
        return Err(DuplicateValue);
      }
      assert values[..i + 1] == values[..i] + [values[i]];
      dupck.seen := dupck.seen + {values[i]};
      i := i + 1;
    }
    assert values[..i] == values;
    var ring := new CopyRing(values);
    r := Ok(ring);
  }

  const FIELD_ORDER: seq<Field> := [Seconds, Minutes, Hours, DaysOfTheMonth, Months, DaysOfTheWeek]

  /** The first validation error among the six fields, in their order, from the `k`-th on. */
  function FirstFieldError(parsed: seq<seq<nat>>, k: nat): (e: Option<ParseError>)
    requires |parsed| >= 6 && k <= 6
    decreases 6 - k
  {
    if k == 6 then None
    else if ValidateError(FIELD_ORDER[k], parsed[k]).Some? then ValidateError(FIELD_ORDER[k], parsed[k])
    else FirstFieldError(parsed, k + 1)
  }

  /** No field fails exactly when each of the six passes its own validation. */
  lemma {:induction false} FirstFieldErrorNone(parsed: seq<seq<nat>>, k: nat)
    requires |parsed| >= 6 && k <= 6
    ensures FirstFieldError(parsed, k).None? <==> forall j :: k <= j < 6 ==> ValidateError(FIELD_ORDER[j], parsed[j]).None?
    decreases 6 - k
  {
    if k < 6 {
      FirstFieldErrorNone(parsed, k + 1);
    }
  }

  /** Values that passed validation for a field lie within that field's bounds. */
  lemma ValidatedInBounds(field: Field, values: seq<nat>)
    requires ValidateError(field, values).None?
    ensures |values| > 0 && values[0] >= field.Min() && values[|values| - 1] <= field.Max()
  {
    assert values[0] in values && values[|values| - 1] in values;
  }

  /**
   * Builds the table from six value lists that passed their validations:
   * such values always satisfy both builders.
   */
  method BuildValidated(parsed: seq<seq<nat>>) returns (table: FieldTable)
    requires |parsed| >= 6 && forall j :: 0 <= j < 6 ==> ValidateError(FIELD_ORDER[j], parsed[j]).None?
    ensures fresh(table) && table.Valid()
  {
    assert ValidateError(Seconds, parsed[0]).None? && ValidateError(Minutes, parsed[1]).None?;
    assert ValidateError(Hours, parsed[2]).None? && ValidateError(DaysOfTheMonth, parsed[3]).None?;
    assert ValidateError(Months, parsed[4]).None? && ValidateError(DaysOfTheWeek, parsed[5]).None?;
    ValidatedInBounds(Seconds, parsed[0]);
    ValidatedInBounds(Minutes, parsed[1]);
    ValidatedInBounds(Hours, parsed[2]);
    ValidatedInBounds(DaysOfTheMonth, parsed[3]);
    ValidatedInBounds(Months, parsed[4]);
    ValidatedInBounds(DaysOfTheWeek, parsed[5]);
    TimeBuildErrorCases(Some(parsed[0]), Some(parsed[1]), Some(parsed[2]));
    DateBuildErrorCases(Some(parsed[3]), Some(parsed[5]), Some(parsed[4]));
    var builder := new Builder();
    builder.time.WithSecs(parsed[0]);
    builder.time.WithMins(parsed[1]);
    builder.time.WithHours(parsed[2]);
    builder.date.WithDaysMonth(parsed[3]);
    builder.date.WithMonths(parsed[4]);
    builder.date.WithDaysWeek(parsed[5]);
    var built := builder.Build();
    table := built.value;
  }

  /**
   * `FieldTable::try_from` from the six fields' parsed values: validates
   * them in field order with one shared duplicate set, stopping at the first
   * failure, then builds the table from the six rings, a build failure
   * being wrapped as `Build`.  Values that passed validation always build,
   * so the only failures are validation failures.
   */
  method FieldTableTryFrom(parsed: seq<seq<nat>>) returns (r: Result<FieldTable, ParseError>)
    requires |parsed| >= 6
    ensures r.Err? <==> FirstFieldError(parsed, 0).Some?
    ensures r.Err? ==> r.error == FirstFieldError(parsed, 0).value
    ensures r.Ok? ==> fresh(r.value) && r.value.Valid()
  {
    var dupck := new DupCheck();
    var values: seq<seq<nat>> := [];
    var k := 0;
    while k < 6
      invariant 0 <= k <= 6 && |values| == k
      invariant FirstFieldError(parsed, 0) == FirstFieldError(parsed, k)
      invariant forall j :: 0 <= j < k ==> values[j] == parsed[j] && ValidateError(FIELD_ORDER[j], parsed[j]).None?
    {
      var v := Validate(FIELD_ORDER[k], parsed[k], dupck);
      if v.Err? {
        return Err(v.error);
      }
      values := values + [v.value.items];
      k := k + 1;
    }
    FirstFieldErrorNone(parsed, 0);
    var table := BuildValidated(values);
    r := Ok(table);
  }
}
