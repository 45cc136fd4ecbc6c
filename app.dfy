/** The submit handler: validate the form, then resolve and sort the
    uploaded tally records and build the workbook, or report why not. */
module App {
  import opened Tally
  import opened Form
  import opened FileName
  import opened Row

  /** The chosen file as the handler sees it once `file.text()` and
      `JSON.parse` have run: no file at all, content that is not JSON or has
      no `resultados` array of records, or the records themselves. */
  datatype Upload = NoFile | Unreadable | Records(resultados: seq<RawRecord>)

  /** What a submission ends in: the form errors that stop it, the single
      processing error shown when the file cannot be used, or the workbook
      handed to the writer together with the sorted records it came from. */
  datatype Submission =
    | Invalid(errors: map<string, string>)
    | Failed(errors: map<string, string>)
    | Written(processed: seq<Resolved>, workbook: Workbook)

  const ProcessingMessage: string := "Error al procesar el archivo JSON"

  /** Every form field holds something other than white space. */
  predicate Complete(f: FormData) {
    forall i :: 0 <= i < |FieldKeys| ==> !Blank(Entries(f)[i].1)
  }

  /** `handleSubmit`: nothing is processed unless the form is complete and a
      file is chosen; an unusable file yields the one processing error;
      otherwise the workbook holds the sorted, resolved records' marks. */
  method HandleSubmit(refs: seq<Candidate>, f: FormData, upload: Upload) returns (s: Submission)
    ensures s.Invalid? <==> !Complete(f) || upload == NoFile
    ensures s.Invalid? ==> ("file" in s.errors <==> upload == NoFile) && s.errors != map[]
    ensures s.Invalid? ==> "file" in s.errors ==> s.errors["file"] == FileMessage
    ensures s.Invalid? ==> forall i :: 0 <= i < |FieldKeys| ==> (FieldKeys[i] in s.errors <==> Blank(Entries(f)[i].1))
    ensures s.Invalid? ==> forall i :: 0 <= i < |FieldKeys| && FieldKeys[i] in s.errors ==> s.errors[FieldKeys[i]] == FieldMessage(FieldKeys[i])
    ensures s.Invalid? ==> forall key :: key in s.errors ==> key == "file" || key in FieldKeys
    ensures s.Failed? <==> Complete(f) && upload == Unreadable
    ensures s.Failed? ==> s.errors == map["file" := ProcessingMessage]
    ensures s.Written? ==> upload.Records?
    ensures s.Written? ==> |s.processed| == |upload.resultados|
    ensures s.Written? ==> multiset(s.processed) == multiset(ResolveAll(Lookup(refs), upload.resultados))
    ensures s.Written? ==> Sorted(s.processed)
    ensures s.Written? ==> s.workbook.sheetName == "Resultados"
    ensures s.Written? ==> s.workbook.header == Header(PositionColumns(refs))
    ensures s.Written? ==>
      s.workbook.cells == [Str(f.jrv), Str(f.centro), Str(f.colonia), Str(f.territory)] + PositionCells(MarksOf(s.processed), PositionColumns(refs))
    ensures s.Written? ==> s.workbook.filename == ExcelFileName(f)
  {
    var valid, errors := ValidateForm(f, upload != NoFile);
    if !valid {
      return Invalid(errors);
    }
    match upload
    case NoFile =>
      assert false;
    case Unreadable =>
      s := Failed(map["file" := ProcessingMessage]);
    case Records(resultados) =>
      var processed := ProcessJsonData(refs, resultados);
      var wb := GenerateExcel(processed, refs, f);
      s := Written(processed, wb);
  }
}
