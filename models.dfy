/**
 * The request schema of the text-to-path endpoint: the `TextRequest` fields,
 * their defaults, and the four field validators.
 */
module Models {
  import opened Wrappers
  import opened PyStr

  /** A request that passed validation. */
  datatype TextRequest = TextRequest(text: string, fontSize: int, fillColor: string, fontFamily: string)

  /** The request body as received: a field the client leaves out is `None`. */
  datatype RawRequest = RawRequest(
    text: Option<string>, fontSize: Option<int>, fillColor: Option<string>, fontFamily: Option<string>)

  /** The fields of `TextRequest`, in declaration order (`text`, `font_size`, `fill_color`, `font_family`). */
  datatype Field = TextField | FontSizeField | FillColorField | FontFamilyField {
    /** The field's position in the declaration. */
    function Rank(): nat {
      match this
      case TextField => 0
      case FontSizeField => 1
      case FillColorField => 2
      case FontFamilyField => 3
    }
  }

  /** One rejected field and the message of the error raised for it. */
  datatype FieldError = FieldError(field: Field, message: string)

  const DefaultFontSize: int := 40
  const DefaultFillColor: string := "#000000"

  const TextEmpty: string := "Text cannot be empty"
  const FontSizeNotPositive: string := "Font size must be positive"
  const FontSizeTooLarge: string := "Font size must be less than or equal to 1000"
  const FillColorInvalid: string := "Fill color must be a valid hex color code (e.g., #000000)"
  const FontFamilyEmpty: string := "Font family cannot be empty"
  const FieldRequired: string := "field required"

  /** `text_must_not_be_empty`: rejects the empty text and the text made of whitespace only. */
  function ValidateText(v: string): (r: Result<string, string>)
    ensures r.Success? <==> !IsBlank(v)
    ensures r.Success? ==> r.value == v
    ensures r.Failure? ==> r.error == TextEmpty
  {
    if v == [] || Strip(v, IsSpace) == [] then Failure(TextEmpty) else Success(v)
  }

  /** `font_size_must_be_positive`: accepts 1..1000, with one message per side of the range. */
  function ValidateFontSize(v: int): (r: Result<int, string>)
    ensures r.Success? <==> 1 <= v <= 1000
    ensures r.Success? ==> r.value == v
    ensures r.Failure? ==> r.error == (if v < 1 then FontSizeNotPositive else FontSizeTooLarge)
  {
    if v <= 0 then Failure(FontSizeNotPositive)
    else if v > 1000 then Failure(FontSizeTooLarge)
    else Success(v)
  }

  predicate IsHexDigit(c: char) {
    '0' <= c <= '9' || 'a' <= c <= 'f' || 'A' <= c <= 'F'
  }

  /** Every character is a hex digit. */
  predicate AllHex(s: string) {
    forall i :: 0 <= i < |s| ==> IsHexDigit(s[i])
  }

  /** The text after `#`, without the one final newline that Python's `$` tolerates. */
  function ColorDigits(v: string): string
    requires |v| >= 1
  {
    if |v| >= 2 && v[|v| - 1] == '\n' then v[1..|v| - 1] else v[1..]
  }

  /**
   * What the colour pattern accepts, stated by shape: `#`, then exactly three
   * or exactly six hex digits, then at most one newline.
   */
  predicate IsHexColor(v: string) {
    |v| >= 1 && v[0] == '#' && (|ColorDigits(v)| == 3 || |ColorDigits(v)| == 6) && AllHex(ColorDigits(v))
  }

  /** Three hex digits start at position `i`. */
  predicate HexTripleAt(v: string, i: nat) {
    i + 3 <= |v| && IsHexDigit(v[i]) && IsHexDigit(v[i + 1]) && IsHexDigit(v[i + 2])
  }

  /** Python's `$` without MULTILINE: the end of the text, or just before its final newline. */
  predicate EndAnchorAt(v: string, i: nat) {
    i == |v| || (i + 1 == |v| && v[i] == '\n')
  }

  /**
   * The greedy group `(?:[0-9a-fA-F]{3}){1,2}` followed by `$`, from position
   * `i` with `count` repetitions already matched: first try one more
   * repetition, then backtrack to the anchor.
   */
  predicate MatchTriples(v: string, i: nat, count: nat)
    requires count <= 2
    decreases 2 - count
  {
    || (count < 2 && HexTripleAt(v, i) && MatchTriples(v, i + 3, count + 1))
    || (count >= 1 && EndAnchorAt(v, i))
  }

  /** `re.match(r'^#(?:[0-9a-fA-F]{3}){1,2}$', v)` succeeds. */
  predicate MatchColorPattern(v: string) {
    |v| >= 1 && v[0] == '#' && MatchTriples(v, 1, 0)
  }

  lemma TripleIsAllHex(v: string, i: nat)
    requires i + 3 <= |v|
    ensures HexTripleAt(v, i) <==> AllHex(v[i..i + 3])
  {
    var t := v[i..i + 3];
    assert t[0] == v[i] && t[1] == v[i + 1] && t[2] == v[i + 2];
  }

  /** The backtracking pattern match accepts exactly the texts of hex-colour shape. */
  lemma ColorPatternIsHexColor(v: string)
    ensures MatchColorPattern(v) <==> IsHexColor(v)
  {
    if |v| >= 1 && v[0] == '#' {
      assert MatchTriples(v, 1, 0) <==> HexTripleAt(v, 1) && MatchTriples(v, 4, 1);
      assert MatchTriples(v, 4, 1) <==> (HexTripleAt(v, 4) && EndAnchorAt(v, 7)) || EndAnchorAt(v, 4);
      var d := ColorDigits(v);
      if |d| == 3 {
        assert d == v[1..4];
        TripleIsAllHex(v, 1);
        assert EndAnchorAt(v, 4);
      } else if |d| == 6 {
        assert d == v[1..7];
        TripleIsAllHex(v, 1);
        TripleIsAllHex(v, 4);
        assert d[..3] == v[1..4] && d[3..] == v[4..7];
        assert AllHex(d) <==> AllHex(d[..3]) && AllHex(d[3..]) by {
          assert forall k :: 0 <= k < 3 ==> d[k] == d[..3][k] && d[k + 3] == d[3..][k];
        }
        assert !EndAnchorAt(v, 4);
      } else {
        assert !(HexTripleAt(v, 1) && EndAnchorAt(v, 4));
        assert !(HexTripleAt(v, 4) && EndAnchorAt(v, 7));
      }
    }
  }

  /** `validate_color`: accepts exactly the hex-colour texts and returns them unchanged. */
  function ValidateFillColor(v: string): (r: Result<string, string>)
    ensures r.Success? <==> IsHexColor(v)
    ensures r.Success? ==> r.value == v
    ensures r.Failure? ==> r.error == FillColorInvalid
  {
    ColorPatternIsHexColor(v);
    if !MatchColorPattern(v) then Failure(FillColorInvalid) else Success(v)
  }

  /** `validate_font_family`: only the empty family is rejected. */
  function ValidateFontFamily(v: string): (r: Result<string, string>)
    ensures r.Success? <==> v != []
    ensures r.Success? ==> r.value == v
    ensures r.Failure? ==> r.error == FontFamilyEmpty
  {
    if v == [] then Failure(FontFamilyEmpty) else Success(v)
  }

  /** The errors of one field: a required field that is missing, or its validator's rejection. */
  function CheckField<T>(name: Field, value: Option<T>, required: bool,
                         validate: T -> Result<T, string>): seq<FieldError>
  {
    match value
    case None => if required then [FieldError(name, FieldRequired)] else []
    case Some(v) => if validate(v).Failure? then [FieldError(name, validate(v).error)] else []
  }

  /** The `text` field reports at most one error: missing, or not visible. */
  lemma TextFieldErrors(v: Option<string>)
    ensures var e := CheckField(TextField, v, true, ValidateText);
            && |e| <= 1 && (forall k :: 0 <= k < |e| ==> e[k].field == TextField)
            && (e == [] <==> v.Some? && !IsBlank(v.value))
            && (FieldError(TextField, FieldRequired) in e <==> v.None?)
            && (FieldError(TextField, TextEmpty) in e <==> v.Some? && IsBlank(v.value))
  {
  }

  /** The `font_size` field reports at most one error, one message per side of the range. */
  lemma FontSizeFieldErrors(v: Option<int>)
    ensures var e := CheckField(FontSizeField, v, false, ValidateFontSize);
            && |e| <= 1 && (forall k :: 0 <= k < |e| ==> e[k].field == FontSizeField)
            && (e == [] <==> v.None? || 1 <= v.value <= 1000)
            && (FieldError(FontSizeField, FontSizeNotPositive) in e <==> v.Some? && v.value < 1)
            && (FieldError(FontSizeField, FontSizeTooLarge) in e <==> v.Some? && v.value > 1000)
  {
  }

  /** The `fill_color` field reports at most one error, for a colour that is not a hex colour. */
  lemma FillColorFieldErrors(v: Option<string>)
    ensures var e := CheckField(FillColorField, v, false, ValidateFillColor);
            && |e| <= 1 && (forall k :: 0 <= k < |e| ==> e[k].field == FillColorField)
            && (e == [] <==> v.None? || IsHexColor(v.value))
            && (FieldError(FillColorField, FillColorInvalid) in e <==> v.Some? && !IsHexColor(v.value))
  {
  }

  /** The `font_family` field reports at most one error: missing, or empty. */
  lemma FontFamilyFieldErrors(v: Option<string>)
    ensures var e := CheckField(FontFamilyField, v, true, ValidateFontFamily);
            && |e| <= 1 && (forall k :: 0 <= k < |e| ==> e[k].field == FontFamilyField)
            && (e == [] <==> v.Some? && v.value != [])
            && (FieldError(FontFamilyField, FieldRequired) in e <==> v.None?)
            && (FieldError(FontFamilyField, FontFamilyEmpty) in e <==> v == Some([]))
  {
  }

  /** Some error in `errors` names field `f`. */
  predicate ReportsField(errors: seq<FieldError>, f: Field) {
    exists k :: 0 <= k < |errors| && errors[k].field == f
  }

  /** Every field is present where required and passes its validator where present. */
  predicate AcceptableRequest(raw: RawRequest) {
    && raw.text.Some? && !IsBlank(raw.text.value)
    && (raw.fontSize.Some? ==> 1 <= raw.fontSize.value <= 1000)
    && (raw.fillColor.Some? ==> IsHexColor(raw.fillColor.value))
    && raw.fontFamily.Some? && raw.fontFamily.value != []
  }

  /**
   * The errors of a request, collected field by field in declaration order:
   * each field reports at most one error, naming the field and carrying the
   * missing-field message or its validator's message.
   */
  function RequestErrors(raw: RawRequest): (errors: seq<FieldError>)
    ensures errors == [] <==> AcceptableRequest(raw)
    ensures |errors| <= 4
    ensures forall a, b :: 0 <= a < b < |errors| ==> errors[a].field.Rank() < errors[b].field.Rank()
  {
    var e1 := CheckField(TextField, raw.text, true, ValidateText);
    var e2 := CheckField(FontSizeField, raw.fontSize, false, ValidateFontSize);
    var e3 := CheckField(FillColorField, raw.fillColor, false, ValidateFillColor);
    var e4 := CheckField(FontFamilyField, raw.fontFamily, true, ValidateFontFamily);
    TextFieldErrors(raw.text);
    FontSizeFieldErrors(raw.fontSize);
    FillColorFieldErrors(raw.fillColor);
    FontFamilyFieldErrors(raw.fontFamily);
    e1 + e2 + e3 + e4
  }

  /** A field check names only its own field, and names it exactly when it fails. */
  lemma CheckFieldReports<T>(name: Field, value: Option<T>, required: bool,
                             validate: T -> Result<T, string>, f: Field)
    ensures ReportsField(CheckField(name, value, required, validate), f)
            <==> CheckField(name, value, required, validate) != [] && f == name
  {
    var e := CheckField(name, value, required, validate);
    assert |e| <= 1;
    assert e != [] ==> e[0].field == name;
  }

  /** A field is named in two error lists put together exactly when it is named in one of them. */
  lemma ReportsFieldAppend(a: seq<FieldError>, b: seq<FieldError>, f: Field)
    ensures ReportsField(a + b, f) <==> ReportsField(a, f) || ReportsField(b, f)
  {
    if ReportsField(a + b, f) {
      var k :| 0 <= k < |a + b| && (a + b)[k].field == f;
      if k >= |a| {
        assert b[k - |a|] == (a + b)[k];
      }
    }
    if ReportsField(a, f) {
      var k :| 0 <= k < |a| && a[k].field == f;
      assert (a + b)[k] == a[k];
    }
    if ReportsField(b, f) {
      var k :| 0 <= k < |b| && b[k].field == f;
      assert (a + b)[|a| + k] == b[k];
    }
  }

  /**
   * The errors of a request are those of its four fields, one after the
   * other, so a field is named by some error exactly when its own check fails.
   */
  lemma FieldsOfErrors(raw: RawRequest, f: Field)
    ensures ReportsField(RequestErrors(raw), f) <==>
            || (f == TextField && CheckField(TextField, raw.text, true, ValidateText) != [])
            || (f == FontSizeField && CheckField(FontSizeField, raw.fontSize, false, ValidateFontSize) != [])
            || (f == FillColorField && CheckField(FillColorField, raw.fillColor, false, ValidateFillColor) != [])
            || (f == FontFamilyField && CheckField(FontFamilyField, raw.fontFamily, true, ValidateFontFamily) != [])
  {
    var e1 := CheckField(TextField, raw.text, true, ValidateText);
    var e2 := CheckField(FontSizeField, raw.fontSize, false, ValidateFontSize);
    var e3 := CheckField(FillColorField, raw.fillColor, false, ValidateFillColor);
    var e4 := CheckField(FontFamilyField, raw.fontFamily, true, ValidateFontFamily);
    assert RequestErrors(raw) == e1 + e2 + e3 + e4;
    ReportsFieldAppend(e1 + e2 + e3, e4, f);
    ReportsFieldAppend(e1 + e2, e3, f);
    ReportsFieldAppend(e1, e2, f);
    CheckFieldReports(TextField, raw.text, true, ValidateText, f);
    CheckFieldReports(FontSizeField, raw.fontSize, false, ValidateFontSize, f);
    CheckFieldReports(FillColorField, raw.fillColor, false, ValidateFillColor, f);
    CheckFieldReports(FontFamilyField, raw.fontFamily, true, ValidateFontFamily, f);
  }

  /** A rejected `text` is reported as missing, or as not visible, exactly when it is. */
  lemma TextErrorReported(raw: RawRequest)
    ensures FieldError(TextField, FieldRequired) in RequestErrors(raw) <==> raw.text.None?
    ensures FieldError(TextField, TextEmpty) in RequestErrors(raw) <==> raw.text.Some? && IsBlank(raw.text.value)
    ensures ReportsField(RequestErrors(raw), TextField) <==> !(raw.text.Some? && !IsBlank(raw.text.value))
  {
    TextFieldErrors(raw.text);
    FieldsOfErrors(raw, TextField);
  }

  /** A font size is reported below or above the range exactly when it is. */
  lemma FontSizeErrorReported(raw: RawRequest)
    ensures FieldError(FontSizeField, FontSizeNotPositive) in RequestErrors(raw) <==> raw.fontSize.Some? && raw.fontSize.value < 1
    ensures FieldError(FontSizeField, FontSizeTooLarge) in RequestErrors(raw) <==> raw.fontSize.Some? && raw.fontSize.value > 1000
    ensures ReportsField(RequestErrors(raw), FontSizeField) <==> !(raw.fontSize.None? || 1 <= raw.fontSize.value <= 1000)
  {
    FontSizeFieldErrors(raw.fontSize);
    FieldsOfErrors(raw, FontSizeField);
  }

  /** A fill colour is reported exactly when it is given and is not a hex colour. */
  lemma FillColorErrorReported(raw: RawRequest)
    ensures FieldError(FillColorField, FillColorInvalid) in RequestErrors(raw) <==> raw.fillColor.Some? && !IsHexColor(raw.fillColor.value)
    ensures ReportsField(RequestErrors(raw), FillColorField) <==> !(raw.fillColor.None? || IsHexColor(raw.fillColor.value))
  {
    FillColorFieldErrors(raw.fillColor);
    FieldsOfErrors(raw, FillColorField);
  }

  /** A font family is reported as missing, or as empty, exactly when it is. */
  lemma FontFamilyErrorReported(raw: RawRequest)
    ensures FieldError(FontFamilyField, FieldRequired) in RequestErrors(raw) <==> raw.fontFamily.None?
    ensures FieldError(FontFamilyField, FontFamilyEmpty) in RequestErrors(raw) <==> raw.fontFamily == Some([])
    ensures ReportsField(RequestErrors(raw), FontFamilyField) <==> !(raw.fontFamily.Some? && raw.fontFamily.value != [])
  {
    FontFamilyFieldErrors(raw.fontFamily);
    FieldsOfErrors(raw, FontFamilyField);
  }

  /**
   * Building a `TextRequest`: every field is checked and all errors are
   * collected; an omitted field with a default takes the default, which is
   * not run through the validator.
   */
  function ParseRequest(raw: RawRequest): (r: Result<TextRequest, seq<FieldError>>)
    ensures r.Success? <==> AcceptableRequest(raw)
    ensures r.Success? ==> r.value == TextRequest(raw.text.value, raw.fontSize.GetOr(DefaultFontSize),
                                                  raw.fillColor.GetOr(DefaultFillColor), raw.fontFamily.value)
    ensures r.Failure? ==> r.error == RequestErrors(raw) && 1 <= |r.error| <= 4
  {
    var errors := RequestErrors(raw);
    if errors == [] then
      Success(TextRequest(raw.text.value, raw.fontSize.GetOr(DefaultFontSize),
                          raw.fillColor.GetOr(DefaultFillColor), raw.fontFamily.value))
    else
      Failure(errors)
  }

  /** The defaults: a request naming only text and family gets size 40 and colour `#000000`. */
  lemma DefaultsApply(text: string, family: string)
    requires !IsBlank(text) && family != []
    ensures ParseRequest(RawRequest(Some(text), None, None, Some(family)))
            == Success(TextRequest(text, 40, "#000000", family))
  {
  }

  /** Four or five hex digits are rejected; three or six, with one trailing newline, are accepted. */
  lemma ColorDigitCounts()
    ensures ValidateFillColor("#fff").Success? && ValidateFillColor("#A0b1C2").Success?
    ensures ValidateFillColor("#abc\n").Success?
    ensures ValidateFillColor("#abcd").Failure? && ValidateFillColor("#abcde").Failure?
    ensures ValidateFillColor("#abc\n\n").Failure? && ValidateFillColor("abc").Failure?
  {
    assert MatchColorPattern("#fff") && MatchColorPattern("#A0b1C2") && MatchColorPattern("#abc\n");
  }
}
