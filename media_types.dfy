/** src/media/media.controller.ts: the MIME allow-lists and the upload step of
    uploadMedia and updateMedia up to the media service call. */
module MediaTypes {
  import opened Common
  import FileUpload

  /** The size limit both endpoints pass: 10 MiB. */
  const MaxUploadSize: int := 10 * 1024 * 1024

  const ImageTypes: seq<string> := ["image/jpeg", "image/png", "image/svg", "image/svg+xml", "image/jpg"]
  const DocumentTypes: seq<string> :=
    ["application/pdf", "application/msword", "application/vnd.openxmlformats-officedocument.wordprocessingml.document"]
  const WordTypes: seq<string> :=
    ["application/msword", "application/vnd.openxmlformats-officedocument.wordprocessingml.document"]

  /** allowedMimeTypes: a fixed list per type name, `[]` for any other name. */
  function AllowedMimeTypes(kind: string): (r: seq<string>)
    ensures kind == "image" ==> r == ImageTypes
    ensures kind == "document" ==> r == DocumentTypes
    ensures kind == "word" ==> r == WordTypes
    ensures kind !in {"image", "video", "audio", "document", "excel", "ppt", "zip", "word"} ==> r == []
  {
    match kind
    case "image" => ImageTypes
    case "video" => ["video/mp4", "video/mpeg", "video/quicktime"]
    case "audio" => ["audio/mpeg", "audio/wav", "audio/ogg"]
    case "document" => DocumentTypes
    case "excel" => ["application/vnd.ms-excel", "application/vnd.openxmlformats-officedocument.spreadsheetml.sheet"]
    case "ppt" => ["application/vnd.ms-powerpoint", "application/vnd.openxmlformats-officedocument.presentationml.presentation"]
    case "zip" => ["application/zip", "application/x-rar-compressed"]
    case "word" => WordTypes
    case _ => []
  }

  /** allowedMimeTypeByParent: the image list for books and profiles, null otherwise. */
  function AllowedMimeTypeByParent(parent: string): (r: Option<seq<string>>)
    ensures parent in {"book", "profile"} <==> r.Some?
    ensures r.Some? ==> r.value == AllowedMimeTypes("image")
  {
    if parent == "book" || parent == "profile" then Some(AllowedMimeTypes("image")) else None
  }

  /** Every type allowed for "word" is allowed for "document". */
  lemma WordWithinDocument(t: string)
    requires t in AllowedMimeTypes("word")
    ensures t in AllowedMimeTypes("document")
  {
  }

  /** The outcome of the first half of an upload or update request: the checked
      file goes on to the media service, or the request fails with a 500
      because the controller writes `fileData.data.buffer` when the check
      returned no data. */
  datatype UploadStep = Proceed(data: FileUpload.FileData) | Crash(statusCode: int)

  /** `allowedMimeTypeByParent(type) || []`, then handleFileUpload with the
      10 MiB limit, then the buffer write. */
  function CheckUpload(parent: string, file: Option<FileUpload.UploadedFile>): (r: UploadStep)
    ensures r.Crash? ==> r.statusCode == INTERNAL_SERVER_ERROR
    ensures r.Proceed? <==> file.Some? && file.value.mimetype in AllowedMimeTypes("image")
                            && parent in {"book", "profile"} && file.value.size <= MaxUploadSize
    ensures r.Proceed? ==> r.data == FileUpload.FileDataResponse(file.value)
  {
    var allowed := AllowedMimeTypeByParent(parent).GetOr([]);
    var checked := FileUpload.HandleFileUpload(file, Some(allowed), Some(MaxUploadSize));
    if checked.data.Some? then Proceed(checked.data.value) else Crash(INTERNAL_SERVER_ERROR)
  }

  /** A file for any parent type other than a book or a profile never gets past
      the check. */
  lemma UnknownParentAlwaysRejected(parent: string, file: Option<FileUpload.UploadedFile>)
    requires parent != "book" && parent != "profile"
    ensures CheckUpload(parent, file).Crash?
    ensures file.Some? ==> FileUpload.HandleFileUpload(file, Some(AllowedMimeTypeByParent(parent).GetOr([])), Some(MaxUploadSize)).message == "Invalid File Type"
  {
  }
}
