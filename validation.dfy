/** The admission policy that `Document.validateDocument` applies to an upload
    before anything is stored: a type rule, then a size rule, in that order. */
module Validation {

  newtype Byte = x: int | 0 <= x < 256
  type Bytes = seq<Byte>

  /** What the upload widget hands over: the declared MIME type, the declared
      size in bytes, the file name and the content. */
  datatype RawUpload = RawUpload(contentType: string, size: int, name: string, bytes: Bytes)

  /** The pair `(is_valid, error_message)` that validation returns. */
  datatype Verdict = Verdict(isValid: bool, errorMessage: string)

  const PdfType := "application/pdf"
  /** One mebibyte; a file of exactly this size is still accepted. */
  const MaxSize := 1048576

  const InvalidType := "Invalid Document Type"
  const InvalidSize := "Invalid Document Size"

  /** The files the policy admits, stated independently of rule order. */
  predicate Admissible(f: RawUpload) {
    f.contentType == PdfType && f.size <= MaxSize
  }

  /** The type rule runs first, so a file of the wrong type is reported as a
      type error whatever its size; the size rule only speaks for PDFs. */
  function Validate(f: RawUpload): (v: Verdict)
    ensures v.isValid <==> Admissible(f)
    ensures v.isValid ==> v.errorMessage == ""
    ensures f.contentType != PdfType ==> v == Verdict(false, InvalidType)
    ensures f.contentType == PdfType && f.size > MaxSize ==> v == Verdict(false, InvalidSize)
  {
    if f.contentType != PdfType then Verdict(false, InvalidType)
    else if f.size > MaxSize then Verdict(false, InvalidSize)
    else Verdict(true, "")
  }

  /** A rejection always carries a message, and the two messages tell the
      rules apart. */
  lemma RejectionNamesRule(f: RawUpload)
    ensures !Validate(f).isValid ==> Validate(f).errorMessage in {InvalidType, InvalidSize}
    ensures InvalidType != InvalidSize
  {
  }

  /** The size limit is inclusive: `MaxSize` passes, one byte more fails. */
  lemma SizeBoundary(name: string, bytes: Bytes)
    ensures Validate(RawUpload(PdfType, MaxSize, name, bytes)) == Verdict(true, "")
    ensures Validate(RawUpload(PdfType, MaxSize + 1, name, bytes)) == Verdict(false, InvalidSize)
  {
  }
}
