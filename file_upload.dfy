/** src/common/file-upload.service.ts: the guard chain an uploaded file passes
    before the media service stores it. */
module FileUpload {
  import opened Common
  import Response

  /** The Multer file fields the service reads. */
  datatype UploadedFile = UploadedFile(fieldname: string, originalname: string, encoding: string, mimetype: string, size: int)

  /** The FileData record the service returns. */
  datatype FileData = FileData(fieldName: string, originalName: string, encoding: string, size: int, mimeType: string)

  /** The message of the TypeError raised by `allowedMimeTypes.includes` when
      no list is passed; the catch returns it with 409. */
  const NoListMessage: string := "Cannot read properties of undefined (reading 'includes')"

  /** fileDataResponse: the same file under the record's field names. */
  function FileDataResponse(f: UploadedFile): (d: FileData)
    ensures d.fieldName == f.fieldname && d.originalName == f.originalname && d.encoding == f.encoding
    ensures d.size == f.size && d.mimeType == f.mimetype
  {
    FileData(f.fieldname, f.originalname, f.encoding, f.size, f.mimetype)
  }

  /** The Multer file a FileData record was made from. */
  function FromFileData(d: FileData): UploadedFile {
    UploadedFile(d.fieldName, d.originalName, d.encoding, d.mimeType, d.size)
  }

  /** Renaming the fields loses nothing. */
  lemma FileDataRoundTrip(f: UploadedFile)
    ensures FromFileData(FileDataResponse(f)) == f
  {
  }

  /** handleFileUpload: a missing file, then the type, then the size. An absent
      `maxSize` makes `file.size > maxSize` false, so nothing is too large. */
  function HandleFileUpload(file: Option<UploadedFile>, allowed: Option<seq<string>>, maxSize: Option<int>): (r: Reply<FileData>)
    ensures file.None? ==> r == Reply(false, NOT_FOUND, "File Not Found", None)
    ensures file.Some? && allowed.None? ==> r == Reply(false, CONFLICT, NoListMessage, None)
    ensures file.Some? && allowed.Some? && file.value.mimetype !in allowed.value
            ==> r == Reply(false, CONFLICT, "Invalid File Type", None)
    ensures file.Some? && allowed.Some? && file.value.mimetype in allowed.value && maxSize.Some? && file.value.size > maxSize.value
            ==> r == Reply(false, CONFLICT, "File is too large!", None)
    ensures r.status <==> file.Some? && allowed.Some? && file.value.mimetype in allowed.value
                          && (maxSize.None? || file.value.size <= maxSize.value)
    ensures r.status ==> r.statusCode == OK && r.message == "File uploaded successfully"
                         && r.data == Some(FileDataResponse(file.value))
    ensures !r.status ==> r.data.None? && r.statusCode in {NOT_FOUND, CONFLICT}
  {
    if file.None? then Response.ResponseValue(false, NOT_FOUND, "File Not Found")
    else if allowed.None? then Response.ResponseValue(false, CONFLICT, NoListMessage)
    else if file.value.mimetype !in allowed.value then Response.ResponseValue(false, CONFLICT, "Invalid File Type")
    else if maxSize.Some? && file.value.size > maxSize.value then Response.ResponseValue(false, CONFLICT, "File is too large!")
    else Response.ResponseValueWithData(true, OK, "File uploaded successfully", FileDataResponse(file.value))
  }

  /** An empty allowed list rejects every file that is present. */
  lemma EmptyListRejectsEveryFile(file: UploadedFile, maxSize: Option<int>)
    ensures HandleFileUpload(Some(file), Some([]), maxSize) == Reply(false, CONFLICT, "Invalid File Type", None)
  {
  }

  /** The size bound is inclusive. */
  lemma SizeAtLimitAccepted(file: UploadedFile, allowed: seq<string>)
    requires file.mimetype in allowed
    ensures HandleFileUpload(Some(file), Some(allowed), Some(file.size)).status
  {
  }
}
