/** `excelFileFilter`: the upload accepts only files whose original name ends in `.xlsx`. */
module ExcelFilter {
  import opened Wrappers
  import opened Text

  datatype BadRequest = BadRequest(message: string)

  /** One invocation of multer's `callback(error, acceptFile)`. */
  datatype CallbackCall = CallbackCall(error: Option<BadRequest>, acceptFile: bool)

  const XLSX_SUFFIX: string := ".xlsx"
  const UNSUPPORTED_FILE_MESSAGE: string := "지원하지 않는 파일 형식입니다. (xlsx만 가능)"

  /**
   * The calls the filter makes for a file named `originalName`: exactly one,
   * accepting without error when the name ends in `.xlsx`, rejecting with a
   * bad-request error otherwise.
   */
  function ExcelFileFilter(originalName: string): (calls: seq<CallbackCall>)
    ensures |calls| == 1
    ensures calls[0].acceptFile <==> EndsWith(originalName, XLSX_SUFFIX)
    ensures calls[0].acceptFile <==> calls[0].error.None?
    ensures calls[0].error.Some? ==> calls[0].error.value.message == UNSUPPORTED_FILE_MESSAGE
  {
    if !EndsWith(originalName, XLSX_SUFFIX) then
      [CallbackCall(Some(BadRequest(UNSUPPORTED_FILE_MESSAGE)), false)]
    else
      [CallbackCall(None, true)]
  }

  /** Matching is case-sensitive and anchored at the end: `.XLSX` and `.xlsx.bak` are refused. */
  lemma SuffixIsExactAndFinal(name: string)
    ensures !ExcelFileFilter(name + ".XLSX")[0].acceptFile
    ensures !ExcelFileFilter(name + ".xlsx.bak")[0].acceptFile
    ensures ExcelFileFilter(name + ".xlsx")[0].acceptFile
  {
    var upper := name + ".XLSX";
    assert upper[|upper| - 5..][1] == 'X';
    var bak := name + ".xlsx.bak";
    assert bak[|bak| - 5..][4] == 'k';
    var ok := name + ".xlsx";
    assert ok[|ok| - 5..] == ".xlsx";
  }
}
