/** `convert_office_to_pdf`: the choice of conversion backend for one file.
    The backends themselves (COM automation of Word and PowerPoint, a headless
    `soffice` process) are foreign calls; for one conversion attempt all that
    matters is whether each is available and whether it raises. */
module Dispatch {
  import opened Results
  import opened Paths
  import opened Listing

  predicate IsWordExt(ext: Extension) {
    ext == Doc || ext == Docx
  }

  predicate IsPowerPointExt(ext: Extension) {
    ext == Ppt || ext == Pptx
  }

  predicate IsOfficeExt(ext: Extension) {
    IsWordExt(ext) || IsPowerPointExt(ext)
  }

  /** What the environment answers for one conversion attempt:
      `comAvailable` is `COM_AVAILABLE and os.name == "nt"`, `word`/`powerPoint`
      what the COM conversion would do, `sofficePresent` is `has_soffice()` and
      `soffice` what `convert_via_soffice` would do. */
  datatype Backends = Backends(
    comAvailable: bool,
    word: Outcome,
    powerPoint: Outcome,
    sofficePresent: bool,
    soffice: Outcome)

  datatype Backend = WordCom | PowerPointCom | Soffice

  datatype ConvertError =
    | Unsupported
    | NoConverter
    | BackendFailed(reason: string)
  {
    /** `str(e)` of the exception that reaches the caller. */
    function Message(): string {
      match this
      case Unsupported => "Unsupported extension for conversion."
      case NoConverter => "No converter available. Install Microsoft Office (Windows) or LibreOffice."
      case BackendFailed(reason) => reason
    }
  }

  /** The COM backend the suffix selects when COM is usable. */
  function ComOutcome(ext: Extension, b: Backends): Outcome {
    if IsWordExt(ext) then b.word else b.powerPoint
  }

  /** COM is tried and returns without raising. */
  predicate ComSucceeds(ext: Extension, b: Backends) {
    b.comAvailable && ComOutcome(ext, b).Pass?
  }

  /** Converts `src` with the first backend that works: COM Word or PowerPoint
      when available, otherwise (or when COM raised) `soffice` when present,
      whose own failure propagates; failing both, "No converter available".
      Non-office suffixes are rejected before any backend is touched. */
  function ConvertOfficeToPdf(src: FileEntry, b: Backends): (r: Result<Backend, ConvertError>)
    ensures r == Err(Unsupported) <==> !IsOfficeExt(src.ext)
    ensures r == Ok(WordCom) <==> IsWordExt(src.ext) && b.comAvailable && b.word.Pass?
    ensures r == Ok(PowerPointCom) <==> IsPowerPointExt(src.ext) && b.comAvailable && b.powerPoint.Pass?
    ensures r == Ok(Soffice) <==>
      IsOfficeExt(src.ext) && !ComSucceeds(src.ext, b) && b.sofficePresent && b.soffice.Pass?
    ensures r == Err(NoConverter) <==>
      IsOfficeExt(src.ext) && !ComSucceeds(src.ext, b) && !b.sofficePresent
    ensures r.Err? && r.error.BackendFailed? <==>
      IsOfficeExt(src.ext) && !ComSucceeds(src.ext, b) && b.sofficePresent && b.soffice.Fail?
    ensures r.Err? && r.error.BackendFailed? ==> r.error.reason == b.soffice.message
  {
    var ext := src.ext;
    if IsOfficeExt(ext) then
      if ComSucceeds(ext, b) then
        if IsWordExt(ext) then Ok(WordCom) else Ok(PowerPointCom)
      else if b.sofficePresent then
        match b.soffice
        case Pass => Ok(Soffice)
        case Fail(m) => Err(BackendFailed(m))
      else Err(NoConverter)
    else Err(Unsupported)
  }

  /** An exception from COM is swallowed: the result is what it would have
      been with COM unavailable. */
  lemma ComFailureFallsBack(src: FileEntry, b: Backends)
    requires b.comAvailable && ComOutcome(src.ext, b).Fail?
    ensures ConvertOfficeToPdf(src, b) == ConvertOfficeToPdf(src, b.(comAvailable := false))
  {
  }

  /** When COM converts, `soffice` is never consulted. */
  lemma ComSuccessIgnoresSoffice(src: FileEntry, b: Backends, present: bool, outcome: Outcome)
    requires IsOfficeExt(src.ext) && ComSucceeds(src.ext, b)
    ensures ConvertOfficeToPdf(src, b) == ConvertOfficeToPdf(src, b.(sofficePresent := present, soffice := outcome))
  {
  }

  /** PDFs are never handed to a converter backend. */
  lemma PdfIsNotConvertible(src: FileEntry, b: Backends)
    requires src.IsPdf()
    ensures ConvertOfficeToPdf(src, b) == Err(Unsupported)
  {
  }
}
