/** The five metadata fields of the submission form and `validateForm`,
    which records one error per field left blank and one for a missing file. */
module Form {

  /** The form state, in the order its fields were declared. */
  datatype FormData = FormData(territory: string, municipio: string, centro: string, colonia: string, jrv: string)

  /** The keys of the form state, in declaration order. */
  const FieldKeys: seq<string> := ["territory", "municipio", "centro", "colonia", "jrv"]

  /** `Object.entries(formData)`: the fields as key/value pairs, in
      declaration order. */
  function Entries(f: FormData): (es: seq<(string, string)>)
    ensures |es| == |FieldKeys|
    ensures forall i :: 0 <= i < |es| ==> es[i].0 == FieldKeys[i]
  {
    [("territory", f.territory), ("municipio", f.municipio), ("centro", f.centro),
     ("colonia", f.colonia), ("jrv", f.jrv)]
  }

  /** The characters `String.prototype.trim` removes: the ECMAScript
      WhiteSpace and LineTerminator code points. */
  predicate IsJsWhiteSpace(c: char) {
    c == '\t' || c == '\n' || c == '\U{000B}' || c == '\U{000C}' || c == '\r' || c == ' ' ||
    c == '\U{00A0}' || c == '\U{1680}' || ('\U{2000}' <= c <= '\U{200A}') ||
    c == '\U{2028}' || c == '\U{2029}' || c == '\U{202F}' || c == '\U{205F}' ||
    c == '\U{3000}' || c == '\U{FEFF}'
  }

  predicate Blank(s: string) {
    forall k :: 0 <= k < |s| ==> IsJsWhiteSpace(s[k])
  }

  function TrimStart(s: string): (r: string)
    ensures r == [] || !IsJsWhiteSpace(r[0])
    ensures r == [] <==> Blank(s)
  {
    if s != [] && IsJsWhiteSpace(s[0]) then TrimStart(s[1..]) else s
  }

  function TrimEnd(s: string): (r: string)
    ensures r == [] || !IsJsWhiteSpace(r[|r| - 1])
    ensures r <= s
  {
    if s != [] && IsJsWhiteSpace(s[|s| - 1]) then TrimEnd(s[..|s| - 1]) else s
  }

  /** `value.trim()` */
  function Trim(s: string): string
  {
    TrimEnd(TrimStart(s))
  }

  /** `!value.trim()` holds exactly when the value is empty or made only of
      white space. */
  lemma TrimEmptyIffBlank(s: string)
    ensures Trim(s) == [] <==> Blank(s)
  {
    var t := TrimStart(s);
    if t != [] {
      if TrimEnd(t) == [] {
        TrimEndEmpty(t);
      }
    }
  }

  /** Trimming the end to nothing means the string was all white space. */
  lemma {:induction false} TrimEndEmpty(s: string)
    requires TrimEnd(s) == []
    ensures Blank(s)
  {
    if s != [] {
      TrimEndEmpty(s[..|s| - 1]);
      assert forall k :: 0 <= k < |s| - 1 ==> s[k] == s[..|s| - 1][k];
    }
  }

  /** The error recorded for a blank field. */
  function FieldMessage(key: string): string {
    "Por favor ingrese " + (if key == "jrv" then "el número de JRV" else key)
  }

  const FileMessage: string := "Por favor seleccione un archivo JSON"

  /** `validateForm`: walks the fields, records an error for each one that
      is blank after trimming, records one more when no file is chosen, and
      reports whether no error was recorded. */
  method ValidateForm(f: FormData, hasFile: bool) returns (valid: bool, errors: map<string, string>)
    ensures forall i :: 0 <= i < |FieldKeys| ==> (FieldKeys[i] in errors <==> Blank(Entries(f)[i].1))
    ensures forall i :: 0 <= i < |FieldKeys| && FieldKeys[i] in errors ==> errors[FieldKeys[i]] == FieldMessage(FieldKeys[i])
    ensures "file" in errors <==> !hasFile
    ensures "file" in errors ==> errors["file"] == FileMessage
    ensures forall key :: key in errors ==> key == "file" || key in FieldKeys
    ensures valid <==> errors == map[]
    ensures valid <==> hasFile && forall i :: 0 <= i < |FieldKeys| ==> !Blank(Entries(f)[i].1)
  {
    var es := Entries(f);
    FieldKeysDistinct();
    FileIsNotAField();
    errors := map[];
    var i := 0;
    while i < |es|
      invariant 0 <= i <= |es|
      invariant forall j :: 0 <= j < i ==> (FieldKeys[j] in errors <==> Blank(es[j].1))
      invariant forall j :: 0 <= j < i && FieldKeys[j] in errors ==> errors[FieldKeys[j]] == FieldMessage(FieldKeys[j])
      invariant forall key :: key in errors ==> key in FieldKeys[..i]
    {
      var (key, value) := es[i];
      TrimEmptyIffBlank(value);
      if Trim(value) == [] {
        errors := errors[key := FieldMessage(key)];
      }
      i := i + 1;
    }
    assert FieldKeys[..|es|] == FieldKeys;
    if !hasFile {
      errors := errors["file" := FileMessage];
    }
    valid := |errors| == 0;
    assert valid <==> errors == map[] by {
      if errors != map[] {
        var key :| key in errors;
      }
    }
  }

  lemma FieldKeysDistinct()
    ensures forall i, j :: 0 <= i < j < |FieldKeys| ==> FieldKeys[i] != FieldKeys[j]
  {
  }

  lemma FileIsNotAField()
    ensures "file" !in FieldKeys
  {
  }
}
