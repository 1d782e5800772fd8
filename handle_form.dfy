/** The mobile handle form: the order-sensitive `validate` check and the
    values the form derives from the current input. */
module HandleForm {
  import opened Common
  import opened Handle

  // ---------------------------------------------------------------------------
  // Decimal numerals, as a template literal writes a non-negative integer
  // ---------------------------------------------------------------------------

  function DigitChar(d: nat): char
    requires d < 10
  {
    ('0' as int + d) as char
  }

  function DigitValue(c: char): nat {
    if '0' <= c <= '9' then c as int - '0' as int else 0
  }

  /** The shortest decimal numeral of `n`. */
  function NatToString(n: nat): (s: string)
    ensures |s| >= 1
    ensures forall i :: 0 <= i < |s| ==> '0' <= s[i] <= '9'
    ensures |s| > 1 ==> s[0] != '0'
    decreases n
  {
    if n < 10 then [DigitChar(n)] else NatToString(n / 10) + [DigitChar(n % 10)]
  }

  /** Reads a numeral back. */
  function ParseDecimal(s: string): nat {
    if s == [] then 0 else 10 * ParseDecimal(s[..|s| - 1]) + DigitValue(s[|s| - 1])
  }

  lemma {:induction false} NatToStringRoundTrip(n: nat)
    ensures ParseDecimal(NatToString(n)) == n
    decreases n
  {
    if n >= 10 {
      var s := NatToString(n);
      assert s[..|s| - 1] == NatToString(n / 10);
      NatToStringRoundTrip(n / 10);
    }
  }

  lemma BoundNumerals()
    ensures NatToString(HandleMaxLength) == "30"
    ensures NatToString(HandleMinLength) == "3"
  {
  }

  // ---------------------------------------------------------------------------
  // validate
  // ---------------------------------------------------------------------------

  const TooLongMessage: string := "사용자 이름은 " + NatToString(HandleMaxLength) + "자 이하로 입력해주세요"
  const CharsetMessage: string := "사용자 이름은 영문 소문자, 숫자, 점(.), 밑줄(_)만 사용할 수 있어요"
  const TooShortMessage: string := "사용자 이름은 " + NatToString(HandleMinLength) + "자 이상이어야 해요"

  /** What `validate` returns: `true`, or the message to show. */
  datatype Verdict = Valid | Invalid(message: string)

  /** `validate`: too long first, then the pattern, then too short. */
  function Validate(value: string): (v: Verdict)
    ensures v.Valid? <==> IsValidHandle(value)
    ensures v.Invalid? ==> v.message in {TooLongMessage, CharsetMessage, TooShortMessage}
  {
    if Utf16Length(value) > HandleMaxLength then Invalid(TooLongMessage)
    else if !MatchesHandlePattern(value) then Invalid(CharsetMessage)
    else if Utf16Length(value) < HandleMinLength then Invalid(TooShortMessage)
    else Valid
  }

  /** The input is accepted exactly when it has 3 to 30 characters, all from `[a-z0-9._]`. */
  lemma {:induction false} ValidateAcceptsExactly(value: string)
    ensures Validate(value).Valid? <==>
      && HandleMinLength <= |value| <= HandleMaxLength
      && forall i :: 0 <= i < |value| ==> IsHandleChar(value[i])
  {
    if MatchesHandlePattern(value) {
      PatternMeansAscii(value);
    }
  }

  /** The length check comes first, then the pattern: a long input gets the
      length message whatever its characters, and an empty or upper-case input
      gets the character message, not the minimum-length one. */
  lemma ValidateOrder(value: string)
    ensures Utf16Length(value) > HandleMaxLength ==> Validate(value) == Invalid(TooLongMessage)
    ensures Utf16Length(value) <= HandleMaxLength && (exists i :: 0 <= i < |value| && 'A' <= value[i] <= 'Z')
      ==> Validate(value) == Invalid(CharsetMessage)
    ensures Utf16Length(value) <= HandleMaxLength && !MatchesHandlePattern(value) ==> Validate(value) == Invalid(CharsetMessage)
    ensures MatchesHandlePattern(value) && Utf16Length(value) < HandleMinLength ==> Validate(value) == Invalid(TooShortMessage)
    ensures Validate("") == Invalid(CharsetMessage)
    ensures Validate("ab") == Invalid(TooShortMessage)
  {
  }

  /** A value the form accepts is one the server accepts and stores as typed. */
  lemma {:induction false} FormAgreesWithServer(value: string)
    requires Validate(value).Valid?
    ensures NormalizeHandle(value) == value && IsValidHandle(NormalizeHandle(value))
  {
    ValidHandleIsNormal(value);
  }

  // ---------------------------------------------------------------------------
  // Derived values
  // ---------------------------------------------------------------------------

  /** `countText`: the input's length, a slash, and the maximum. */
  function CountText(value: string): (t: string)
    ensures |t| > |NatToString(Utf16Length(value))| && t[|NatToString(Utf16Length(value))|] == '/'
  {
    NatToString(Utf16Length(value)) + "/" + NatToString(HandleMaxLength)
  }

  /** The counter reads back as the input's length over 30. */
  lemma {:induction false} CountTextReadsBack(value: string)
    ensures var t := CountText(value);
            var k := |NatToString(Utf16Length(value))|;
            && ParseDecimal(t[..k]) == Utf16Length(value)
            && t[k + 1..] == "30"
  {
    var t := CountText(value);
    var k := |NatToString(Utf16Length(value))|;
    assert t[..k] == NatToString(Utf16Length(value));
    NatToStringRoundTrip(Utf16Length(value));
    BoundNumerals();
    assert t[k + 1..] == NatToString(HandleMaxLength);
  }

  /** The error message the form holds for the current input, if any. */
  function ErrorMessage(value: string): (m: Option<string>)
    ensures m.Some? <==> Validate(value).Invalid?
    ensures m.None? <==> HandleMinLength <= |value| <= HandleMaxLength && forall i :: 0 <= i < |value| ==> IsHandleChar(value[i])
  {
    ValidateAcceptsExactly(value);
    match Validate(value)
    case Valid => None
    case Invalid(message) => Some(message)
  }

  datatype InputState = Default | Error

  /** `inputState`: "error" when the message is truthy (present and non-empty). */
  function StateOf(errorMessage: Option<string>): InputState {
    if errorMessage.Some? && errorMessage.value != "" then Error else Default
  }

  /** `isSubmitDisabled`: the negation of the form's validity. */
  function IsSubmitDisabled(isValid: bool): bool {
    !isValid
  }

  /** The field shows the error state exactly when validation fails, and submit
      is disabled exactly when the server would refuse the handle too. */
  lemma {:induction false} DerivedStateMatchesValidation(value: string)
    ensures StateOf(ErrorMessage(value)) == Error <==> Validate(value).Invalid?
    ensures IsSubmitDisabled(Validate(value).Valid?) <==> !IsValidHandle(value)
  {
    BoundNumerals();
    assert TooLongMessage != "" && TooShortMessage != "" && CharsetMessage != "";
  }
}
